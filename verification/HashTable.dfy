/** mozilla::HashMap over mozilla::detail::HashTable: open addressing with double hashing,
    tombstones and a collision bit in each cached hash code. */
module HashTables {
  import opened Wrappers
  import opened Basics
  import opened HashArith
  import opened HashSlots
  import opened HashRehash

  /** The entry store: cached hash codes and entries, one of each per slot. */
  datatype Storage<!K, !V> = NoStorage
    | Storage(hashes: array<HashNumber>, entries: array<HashMapEntry<K, V>>)

  /** A failed lookup remembers the slot and the prepared hash for a later add. */
  datatype AddPtr = AddPtr(slot: Option<nat>, keyHash: HashNumber)

  datatype RebuildStatus = NotOverloaded | Rehashed | RehashFailed

  class HashTable<K(0,==), V(0)> {
    const hasher: K -> HashNumber
    var mGen: nat
    var mHashShift: nat
    var mTable: Storage<K, V>
    var mEntryCount: nat
    var mRemovedCount: nat
    ghost var Contents: map<K, V>

    // ----- abstraction and invariants

    ghost function Repr(): set<object>
      reads this
    {
      Arrays(mTable)
    }

    static ghost function Arrays(t: Storage<K, V>): set<object> {
      if t.Storage? then {t.hashes, t.entries} else {}
    }

    ghost predicate ValidShift()
      reads this
    {
      mHashShift <= HASH_BITS && ValidLog2(HASH_BITS - mHashShift)
    }

    function Log2(): nat
      requires mHashShift <= HASH_BITS
      reads this
    {
      HASH_BITS - mHashShift
    }

    function RawCapacity(): nat
      requires mHashShift <= HASH_BITS
      reads this
    {
      Pow2(Log2())
    }

    function Capacity(): nat
      requires mHashShift <= HASH_BITS
      reads this
    {
      if mTable.Storage? then RawCapacity() else 0
    }

    ghost predicate Separate()
      reads this
    {
      mTable.Storage? ==> mTable.hashes as object != mTable.entries
    }

    /** The slots of the current storage represent m. */
    ghost predicate Slots(m: map<K, V>)
      reads this, Repr()
    {
      && mTable.Storage? && Separate() && ValidShift()
      && Inv(mTable.hashes[..], mTable.entries[..], Log2(), hasher, m)
    }

    /** Everything but the load bound; holds in the middle of a ModIterator traversal too. */
    ghost predicate Consistent()
      reads this, Repr()
    {
      && ValidShift()
      && mEntryCount == |Contents|
      && (mTable.NoStorage? ==> Contents == map[] && mRemovedCount == 0)
      && (mTable.Storage? ==> Slots(Contents) && mRemovedCount == Count(Tombstone, mTable.hashes[..]))
    }

    /** Live entries and tombstones fill at most three quarters of the storage. */
    ghost predicate Valid()
      reads this, Repr()
    {
      && Consistent()
      && (mTable.Storage? ==> 4 * (mEntryCount + mRemovedCount) <= 3 * RawCapacity())
    }

    // ----- lookup

    /** The search that changes nothing. */
    method LookupSlot(key: K, keyHash: HashNumber) returns (s: nat)
      requires Consistent() && mTable.Storage?
      requires keyHash == PrepareHash(hasher(key))
      requires mEntryCount + mRemovedCount < RawCapacity()
      ensures s < mTable.hashes.Length && s < mTable.entries.Length
      ensures IsLiveHash(mTable.hashes[s]) <==> key in Contents
      ensures key in Contents ==> mTable.entries[s] == HashMapEntry(key, Contents[key])
      ensures key !in Contents ==> mTable.hashes[s] == FREE_KEY
    {
      hide Represents, AllReachable, PrepareHash, ScrambleHashCode, Hash1, Hash2, ApplyDoubleHash, Count, Pow2;
      var log2 := Log2();
      ghost var h, e := mTable.hashes[..], mTable.entries[..];
      ghost var f := FreeSlotOnPath(h, keyHash, log2);
      ghost var n := 0;
      var h1 := Hash1(keyHash, log2);
      if mTable.hashes[h1] == FREE_KEY {
        MissMeansAbsent(h, e, log2, hasher, Contents, key, n);
        return h1;
      }
      if StripBit(mTable.hashes[h1]) == keyHash && mTable.entries[h1].key == key {
        HitIsStored(h, e, log2, hasher, Contents, h1, key);
        return h1;
      }
      var dh := Hash2(keyHash, log2);
      while true
        invariant h1 == Probe(keyHash, log2, n) && n < f
        invariant NoMatch(h, e, log2, keyHash, key, n + 1)
        decreases f - n
      {
        h1 := ApplyDoubleHash(h1, dh, log2);
        n := n + 1;
        if mTable.hashes[h1] == FREE_KEY {
          MissMeansAbsent(h, e, log2, hasher, Contents, key, n);
          return h1;
        }
        if StripBit(mTable.hashes[h1]) == keyHash && mTable.entries[h1].key == key {
          HitIsStored(h, e, log2, hasher, Contents, h1, key);
          return h1;
        }
      }
    }

    /** Marks the probe path up to the first slot on it that is not live, and returns that slot. */
    method FindNonLiveSlot(keyHash: HashNumber) returns (s: nat)
      requires mTable.Storage? && Separate() && ValidShift()
      requires mTable.hashes.Length == Pow2(Log2())
      requires Count(Live, mTable.hashes[..]) < mTable.hashes.Length
      modifies mTable.hashes
      ensures s < mTable.hashes.Length && !IsLiveHash(mTable.hashes[s])
      ensures Marks(old(mTable.hashes[..]), mTable.hashes[..])
      ensures Reachable(mTable.hashes[..], keyHash, Log2(), s)
      ensures FirstNonLive(old(mTable.hashes[..]), keyHash, Log2(), s)
    {
      hide Hash1, Hash2, ApplyDoubleHash, Count, Pow2, StripBit, SetBit, HasCollision, PathMarked, PathLive, FirstNonLive;
      var log2 := Log2();
      ghost var h := mTable.hashes[..];
      ghost var f := SlotOnPath(Live, h, keyHash, log2);
      ghost var n := 0;
      var h1 := Hash1(keyHash, log2);
      PathStart(h, keyHash, log2);
      LivePathExtends(h, h, keyHash, log2, n);
      if !IsLiveHash(mTable.hashes[h1]) {
        return h1;
      }
      var dh := Hash2(keyHash, log2);
      while true
        invariant h1 == Probe(keyHash, log2, n) && n < f
        invariant Marks(h, mTable.hashes[..])
        invariant IsLiveHash(mTable.hashes[h1])
        invariant PathMarked(mTable.hashes[..], keyHash, log2, n) && PathLive(h, keyHash, log2, n + 1)
        decreases f - n
      {
        ghost var before := mTable.hashes[..];
        mTable.hashes[h1] := SetBit(mTable.hashes[h1]);
        assert mTable.hashes[..] == before[h1 := SetBit(before[h1])];
        MarkStep(h, before, keyHash, log2, n);
        h1 := ApplyDoubleHash(h1, dh, log2);
        n := n + 1;
        LivePathExtends(h, h, keyHash, log2, n);
        MarksAt(h, mTable.hashes[..], h1);
        if !IsLiveHash(mTable.hashes[h1]) {
          return h1;
        }
      }
    }

    /** A slot that neither matches nor is free: remembered if it is the first tombstone, marked if it is live and none is yet. */
    method PassSlot(slot: nat, firstRemoved: Option<nat>) returns (removed: Option<nat>)
      requires mTable.Storage? && slot < mTable.hashes.Length
      modifies mTable.hashes
      ensures var h := old(mTable.hashes[..]);
              if firstRemoved.Some? then mTable.hashes[..] == h && removed == firstRemoved
              else if h[slot] == REMOVED_KEY then mTable.hashes[..] == h && removed == Some(slot)
              else mTable.hashes[..] == h[slot := SetBit(h[slot])] && removed == None
    {
      removed := firstRemoved;
      if firstRemoved.None? {
        if mTable.hashes[slot] == REMOVED_KEY {
          removed := Some(slot);
        } else {
          mTable.hashes[slot] := SetBit(mTable.hashes[slot]);
        }
      }
    }

    /** The search before an insertion: marks the probe path and recycles the first tombstone on it. */
    method LookupSlotForAdd(key: K, keyHash: HashNumber) returns (s: nat)
      requires Consistent() && mTable.Storage?
      requires keyHash == PrepareHash(hasher(key))
      requires mEntryCount + mRemovedCount < RawCapacity()
      modifies mTable.hashes
      ensures Slots(Contents) && Count(Tombstone, mTable.hashes[..]) == mRemovedCount
      ensures s < mTable.hashes.Length && s < mTable.entries.Length
      ensures IsLiveHash(mTable.hashes[s]) <==> key in Contents
      ensures key in Contents ==> mTable.entries[s] == HashMapEntry(key, Contents[key])
      ensures key !in Contents ==> Reachable(mTable.hashes[..], keyHash, Log2(), s)
      ensures key !in Contents ==> FirstNonLive(old(mTable.hashes[..]), keyHash, Log2(), s) && mTable.hashes[s] == old(mTable.hashes[..])[s]
    {
      hide PrepareHash, Hash1, Hash2, ApplyDoubleHash, Pow2, StripBit, SetBit, Inv, Searching, Count, Reachable, Marks, FirstNonLive;
      var log2 := Log2();
      ghost var h, e, m := mTable.hashes[..], mTable.entries[..], Contents;
      InvShape(h, e, log2, hasher, m);
      ghost var f := FreeSlotOnPath(h, keyHash, log2);
      ghost var n := 0;
      var h1 := Hash1(keyHash, log2);
      SearchStart(h, e, log2, keyHash, key);
      if mTable.hashes[h1] == FREE_KEY {
        SearchMiss(h, h, e, log2, hasher, m, key, n, None);
        return h1;
      }
      if StripBit(mTable.hashes[h1]) == keyHash && mTable.entries[h1].key == key {
        SearchHit(h, h, e, log2, hasher, m, key, n, None);
        return h1;
      }
      var dh := Hash2(keyHash, log2);
      var firstRemoved: Option<nat> := None;
      while true
        invariant h1 == Probe(keyHash, log2, n) && n < f
        invariant Searching(h, mTable.hashes[..], e, log2, keyHash, key, n, firstRemoved)
        invariant mTable.hashes[h1] != FREE_KEY
        invariant !Matches(mTable.hashes[..], e, h1, keyHash, key)
        decreases f - n
      {
        ghost var before, removed := mTable.hashes[..], firstRemoved;
        firstRemoved := PassSlot(h1, firstRemoved);
        SearchStep(h, before, mTable.hashes[..], e, log2, keyHash, key, n, removed, firstRemoved);
        h1 := ApplyDoubleHash(h1, dh, log2);
        n := n + 1;
        SearchKeeps(h, mTable.hashes[..], e, log2, keyHash, key, n, firstRemoved, f);
        if mTable.hashes[h1] == FREE_KEY {
          SearchMiss(h, mTable.hashes[..], e, log2, hasher, m, key, n, firstRemoved);
          return if firstRemoved.Some? then firstRemoved.value else h1;
        }
        if StripBit(mTable.hashes[h1]) == keyHash && mTable.entries[h1].key == key {
          SearchHit(h, mTable.hashes[..], e, log2, hasher, m, key, n, firstRemoved);
          return h1;
        }
      }
    }

    // ----- changing the storage

    method CreateTable(capacity: nat) returns (t: Storage<K, V>)
      ensures t.Storage? && fresh(t.hashes) && fresh(t.entries) && t.hashes as object != t.entries
      ensures t.hashes.Length == t.entries.Length == capacity
      ensures forall i :: 0 <= i < capacity ==> t.hashes[i] == FREE_KEY
    {
      var hashes := new HashNumber[capacity](_ => FREE_KEY);
      var entries := new HashMapEntry<K, V>[capacity];
      t := Storage(hashes, entries);
    }

    /** findNonLiveSlot followed by setLive: the slot contents change, nothing else does. */
    method Place(keyHash: HashNumber, key: K, value: V, ghost m: map<K, V>) returns (wasRemoved: bool)
      requires Slots(m) && key !in m && keyHash == PrepareHash(hasher(key))
      requires |m| < mTable.hashes.Length
      modifies mTable.hashes, mTable.entries
      ensures Slots(m[key := value])
      ensures Count(Tombstone, mTable.hashes[..]) == old(Count(Tombstone, mTable.hashes[..])) - if wasRemoved then 1 else 0
    {
      hide PrepareHash, Pow2, StripBit, SetBit, Inv, Count, Reachable, Marks, StoredHash;
      ghost var h0, e0, log2 := mTable.hashes[..], mTable.entries[..], Log2();
      InvShape(h0, e0, log2, hasher, m);
      var s := FindNonLiveSlot(keyHash);
      ghost var h1 := mTable.hashes[..];
      MarksKeepInv(h0, h1, e0, log2, hasher, m);
      InvShape(h1, e0, log2, hasher, m);
      wasRemoved := mTable.hashes[s] == REMOVED_KEY;
      InsertKeepsInv(h1, e0, log2, hasher, m, s, key, value);
      mTable.hashes[s] := StoredHash(mTable.hashes[s], keyHash);
      mTable.entries[s] := HashMapEntry(key, value);
      assert mTable.hashes[..] == h1[s := StoredHash(h1[s], keyHash)];
      assert mTable.entries[..] == e0[s := HashMapEntry(key, value)];
    }

    /** The copying loop of changeTableSize: live entries move, tombstones stay behind, old slots are cleared. */
    method MoveLiveEntries(oldTable: Storage<K, V>, ghost m: map<K, V>)
      requires oldTable.Storage? && oldTable.hashes.Length == oldTable.entries.Length
      requires Represents(oldTable.hashes[..], oldTable.entries[..], hasher, m)
      requires Slots(map[]) && Count(Tombstone, mTable.hashes[..]) == 0
      requires |m| <= mTable.hashes.Length
      requires Arrays(oldTable) !! Repr()
      requires oldTable.hashes as object != oldTable.entries
      modifies mTable.hashes, mTable.entries, oldTable.hashes
      ensures Slots(m) && Count(Tombstone, mTable.hashes[..]) == 0
    {
      hide PrepareHash, Inv, Count, Represents, Pending, StripBit, IsLiveHash, StoredFrom, Stored, Pow2;
      ghost var h, e := oldTable.hashes[..], oldTable.entries[..];
      ghost var done: map<K, V> := map[];
      PendingStart(h, e, hasher, m);
      for i := 0 to oldTable.hashes.Length
        invariant Slots(done) && Count(Tombstone, mTable.hashes[..]) == 0
        invariant Pending(h, e, i, m, done)
        invariant oldTable.hashes[i..] == h[i..] && oldTable.entries[..] == e
      {
        assert oldTable.hashes[i] == h[i] && oldTable.entries[i] == e[i];
        if IsLiveHash(oldTable.hashes[i]) {
          var entry := oldTable.entries[i];
          PendingMove(h, e, hasher, i, m, done);
          var wasRemoved := Place(StripBit(oldTable.hashes[i]), entry.key, entry.value, done);
          done := done[entry.key := entry.value];
        } else {
          PendingSkip(h, e, i, m, done);
        }
        oldTable.hashes[i] := FREE_KEY;
      }
      PendingEnd(h, e, m, done);
    }

    method ChangeTableSize(newCapacity: nat, mallocOk: bool) returns (status: RebuildStatus)
      requires Consistent()
      requires 4 <= newCapacity == Pow2(CeilingLog2(newCapacity)) && |Contents| <= newCapacity
      modifies this, Repr()
      ensures Consistent() && Contents == old(Contents)
      ensures status == if newCapacity <= Pow2(MAX_LOG2) && mallocOk then Rehashed else RehashFailed
      ensures status == RehashFailed ==> unchanged(this) && unchanged(old(Repr()))
      ensures status == Rehashed ==>
        && mTable.Storage? && RawCapacity() == newCapacity && mRemovedCount == 0
        && fresh(Repr()) && mGen == old(mGen) + 1
    {
      hide PrepareHash, Inv, Count, Represents, Pow2;
      var oldTable := mTable;
      var newLog2 := CeilingLog2(newCapacity);
      if newCapacity > Pow2(MAX_LOG2) {
        return RehashFailed;
      }
      CapacityIsValid(newLog2);
      if !mallocOk {
        return RehashFailed;
      }
      var newTable := CreateTable(newCapacity);
      if mTable.Storage? {
        OldShape();
      }
      mHashShift := HASH_BITS - newLog2;
      mRemovedCount := 0;
      mGen := mGen + 1;
      mTable := newTable;
      EmptyInv(mTable.hashes[..], mTable.entries[..], newLog2, hasher);
      if oldTable.Storage? {
        MoveLiveEntries(oldTable, Contents);
      }
      SlotsLength(Contents);
      status := Rehashed;
    }

    lemma SlotsLength(m: map<K, V>)
      requires Slots(m)
      ensures mTable.hashes.Length == mTable.entries.Length == RawCapacity()
    {
    }

    lemma OldShape()
      requires Consistent() && mTable.Storage?
      ensures mTable.hashes.Length == mTable.entries.Length == RawCapacity()
      ensures Represents(mTable.hashes[..], mTable.entries[..], hasher, Contents)
    {
    }

    // ----- rehashing in place

    method UnsetAllCollisions()
      requires mTable.Storage?
      modifies mTable.hashes
      ensures forall i :: 0 <= i < mTable.hashes.Length ==> mTable.hashes[i] == StripBit(old(mTable.hashes[i]))
    {
      hide StripBit;
      for i := 0 to mTable.hashes.Length
        invariant forall j :: 0 <= j < i ==> mTable.hashes[j] == StripBit(old(mTable.hashes[j]))
        invariant forall j :: i <= j < mTable.hashes.Length ==> mTable.hashes[j] == old(mTable.hashes[j])
      {
        mTable.hashes[i] := StripBit(mTable.hashes[i]);
      }
    }

    /** What holds before every step of the rehash loop at scan index i. */
    ghost predicate Rehashing(i: nat)
      reads this, Repr()
    {
      && mTable.Storage? && Separate() && ValidShift()
      && mTable.hashes.Length == mTable.entries.Length == RawCapacity()
      && Represents(mTable.hashes[..], mTable.entries[..], hasher, Contents)
      && Count(Live, mTable.hashes[..]) == |Contents|
      && Placed(mTable.hashes[..], Log2()) && NoTombstones(mTable.hashes[..])
      && Scanned(mTable.hashes[..], i)
    }

    /** The inner loop: walk the probe path of the entry in slot src past the slots already settled. */
    method FindUnsettledSlot(src: nat) returns (tgt: nat)
      requires Rehashing(src) && src < mTable.hashes.Length && Is(Unplaced, mTable.hashes[src])
      ensures tgt < mTable.hashes.Length && !HasCollision(mTable.hashes[tgt])
      ensures Reachable(mTable.hashes[..], mTable.hashes[src], Log2(), tgt)
    {
      hide Hash1, Hash2, ApplyDoubleHash, Count, Pow2, Represents, Placed, NoTombstones, Scanned;
      var log2 := Log2();
      ghost var h := mTable.hashes[..];
      var keyHash := StripBit(mTable.hashes[src]);
      assert keyHash == h[src];
      ghost var f := ProbeCovers(keyHash, log2, src);
      ghost var n := 0;
      var h1 := Hash1(keyHash, log2);
      PathStart(h, keyHash, log2);
      var dh := Hash2(keyHash, log2);
      tgt := h1;
      while HasCollision(mTable.hashes[tgt])
        invariant h1 == tgt == Probe(keyHash, log2, n) && n <= f
        invariant PathMarked(h, keyHash, log2, n)
        decreases f - n
      {
        h1 := ApplyDoubleHash(h1, dh, log2);
        tgt := h1;
        n := n + 1;
      }
    }

    /** The two slots change places and the target counts as settled: one more entry is. */
    method SwapInto(src: nat, tgt: nat)
      requires Rehashing(src) && src < mTable.hashes.Length && Is(Unplaced, mTable.hashes[src])
      requires tgt < mTable.hashes.Length && !HasCollision(mTable.hashes[tgt])
      requires Reachable(mTable.hashes[..], mTable.hashes[src], Log2(), tgt)
      modifies mTable.hashes, mTable.entries
      ensures Rehashing(src)
      ensures Count(Unplaced, mTable.hashes[..]) == old(Count(Unplaced, mTable.hashes[..])) - 1
    {
      hide Count, Pow2, Represents, Placed, NoTombstones, Scanned, Reachable, IsLiveHash, StripBit, SetBit, Is;
      ghost var h, e := mTable.hashes[..], mTable.entries[..];
      if src != tgt {
        if IsLiveHash(mTable.hashes[tgt]) {
          mTable.entries[src], mTable.entries[tgt] := mTable.entries[tgt], mTable.entries[src];
        } else {
          mTable.entries[tgt] := mTable.entries[src];
        }
        mTable.hashes[src], mTable.hashes[tgt] := mTable.hashes[tgt], mTable.hashes[src];
      }
      mTable.hashes[tgt] := SetBit(mTable.hashes[tgt]);
      assert mTable.hashes[..] == SwapHashes(h, src, tgt);
      assert Exchanged(h, e, mTable.entries[..], src, tgt);
      UnplacedIsLive(h[src]);
      SwapRepresents(h, e, mTable.entries[..], hasher, Contents, src, tgt);
      SwapPlaces(h, Log2(), src, tgt);
      SwapCounts(h, src, tgt);
    }

    method RehashTableInPlace()
      requires Consistent() && mTable.Storage?
      modifies this`mRemovedCount, this`mGen, mTable.hashes, mTable.entries
      ensures Consistent() && mRemovedCount == 0 && mGen == old(mGen) + 1
      ensures LivePairs(mTable.hashes[..], mTable.entries[..]) == old(LivePairs(mTable.hashes[..], mTable.entries[..]))
      ensures Count(Live, mTable.hashes[..]) == old(Count(Live, mTable.hashes[..]))
    {
      hide Count, Pow2, Represents, Placed, NoTombstones, Scanned, AllReachable, IsLiveHash, StripBit, HasCollision, LivePairs;
      ghost var h, e := mTable.hashes[..], mTable.entries[..];
      PairsOfMap(h, e, hasher, Contents);
      mRemovedCount := 0;
      mGen := mGen + 1;
      UnsetAllCollisions();
      UnsetKeeps(h, mTable.hashes[..], e, hasher, Contents);
      NothingPlaced(mTable.hashes[..], Log2());
      var i := 0;
      while i < Capacity()
        invariant Rehashing(i) && i <= Capacity()
        invariant mEntryCount == |Contents| && mRemovedCount == 0 && mGen == old(mGen) + 1
        decreases Count(Unplaced, mTable.hashes[..]), Capacity() - i
      {
        ScanStep(mTable.hashes[..], i);
        if !IsLiveHash(mTable.hashes[i]) || HasCollision(mTable.hashes[i]) {
          i := i + 1;
        } else {
          var tgt := FindUnsettledSlot(i);
          SwapInto(i, tgt);
        }
      }
      AllPlaced(mTable.hashes[..], Log2());
      PairsOfMap(mTable.hashes[..], mTable.entries[..], hasher, Contents);
    }

    // ----- load control

    predicate Overloaded()
      requires ValidShift()
      reads this
    {
      mEntryCount + mRemovedCount >= Capacity() * 3 / 4
    }

    /** The capacity an overloaded table is rebuilt with: the same if a quarter of it is tombstones. */
    function RebuildCapacity(): nat
      requires ValidShift()
      reads this
    {
      if mRemovedCount >= Capacity() / 4 then RawCapacity() else RawCapacity() * 2
    }

    /** Whether rehashIfOverloaded can make room. */
    predicate RoomForOne(mallocOk: bool)
      requires ValidShift()
      reads this
    {
      !Overloaded() || (RebuildCapacity() <= Pow2(MAX_LOG2) && mallocOk)
    }

    ghost predicate Underfull()
      requires ValidShift()
      reads this
    {
      4 * mEntryCount <= 3 * RawCapacity()
    }

    method RehashIfOverloaded(mallocOk: bool) returns (status: RebuildStatus)
      requires Consistent() && Underfull()
      modifies this, Repr()
      ensures Consistent() && Underfull() && Contents == old(Contents)
      ensures status == if !old(Overloaded()) then NotOverloaded
                        else if old(RoomForOne(mallocOk)) then Rehashed else RehashFailed
      // in figures: three quarters of the storage, if there is any, are entries and tombstones
      ensures status == NotOverloaded <==> old(mTable.Storage? && 4 * (mEntryCount + mRemovedCount) < 3 * RawCapacity())
      ensures status == Rehashed ==>
        && mallocOk
        && RawCapacity() == old(if mTable.NoStorage? || 4 * mRemovedCount >= RawCapacity() then RawCapacity() else 2 * RawCapacity())
      ensures status == RehashFailed ==>
        !mallocOk || old(mTable.Storage? && 4 * mRemovedCount < RawCapacity() && 2 * RawCapacity() > 0x4000_0000)
      ensures status != Rehashed ==> unchanged(this) && unchanged(old(Repr()))
      ensures status == Rehashed ==> fresh(Repr()) && mGen == old(mGen) + 1
      ensures status == Rehashed ==> mTable.Storage? && mRemovedCount == 0 && RawCapacity() == old(RebuildCapacity())
      ensures old(Valid()) && status != RehashFailed ==> 4 * (mEntryCount + mRemovedCount) < 3 * RawCapacity() && mTable.Storage?
    {
      hide Inv, Count, PrepareHash, Pow2, CeilingLog2;
      CapacityFacts(Log2());
      if !Overloaded() {
        return NotOverloaded;
      }
      status := ChangeTableSize(RebuildCapacity(), mallocOk);
    }

    method InfallibleRehashIfOverloaded(mallocOk: bool)
      requires Consistent() && Underfull() && mTable.Storage?
      modifies this, Repr()
      ensures Valid() && Contents == old(Contents) && fresh(Repr() - old(Repr()))
      ensures old(4 * (mEntryCount + mRemovedCount) < 3 * RawCapacity()) ==> unchanged(this) && unchanged(old(Repr()))
      ensures old(4 * (mEntryCount + mRemovedCount) >= 3 * RawCapacity()) ==> mRemovedCount == 0
      ensures RawCapacity() == old(RawCapacity()) *
        if mallocOk && old(4 * (mEntryCount + mRemovedCount) >= 3 * RawCapacity() && 4 * mRemovedCount < RawCapacity()
                           && 2 * RawCapacity() <= 0x4000_0000) then 2 else 1
    {
      hide Inv, Count, PrepareHash, Pow2, LivePairs;
      CapacityFacts(Log2());
      var status := RehashIfOverloaded(mallocOk);
      if status == RehashFailed {
        RehashTableInPlace();
      }
    }

    method ShrinkIfUnderloaded(mallocOk: bool)
      requires Valid()
      modifies this, Repr()
      ensures Valid() && Contents == old(Contents) && fresh(Repr() - old(Repr()))
      ensures Capacity() == if old(Capacity()) > 4 && old(mEntryCount) <= old(Capacity()) / 4 && mallocOk
                            then old(Capacity()) / 2 else old(Capacity())
      ensures Capacity() == old(Capacity()) ==> unchanged(this) && unchanged(old(Repr()))
    {
      hide Inv, Count, PrepareHash, Pow2, CeilingLog2;
      CapacityFacts(Log2());
      if Capacity() > 4 && mEntryCount <= Capacity() / 4 {
        var _ := ChangeTableSize(Capacity() / 2, mallocOk);
      }
    }

    method Compact(mallocOk: bool)
      requires Valid()
      modifies this, Repr()
      ensures Valid() && Contents == old(Contents) && fresh(Repr() - old(Repr()))
      ensures Contents == map[] ==> mTable.NoStorage? && RawCapacity() == 4
      ensures Contents == map[] ==> mGen == old(mGen) + 1
      ensures Contents != map[] ==> Capacity() == if mallocOk then BestCapacity(|Contents|) else old(Capacity())
      ensures Contents != map[] && Capacity() == old(Capacity()) ==> unchanged(this) && unchanged(old(Repr()))
    {
      hide Inv, Count, PrepareHash, Pow2, CeilingLog2, BestCapacity;
      CapacityFacts(Log2());
      Pow2Values();
      if mEntryCount == 0 {
        mGen := mGen + 1;
        mHashShift := HASH_BITS - 2;
        mTable := NoStorage;
        mRemovedCount := 0;
        return;
      }
      var best := BestCapacity(mEntryCount);
      ghost var log2 := BestCapacityFits(mEntryCount);
      CapacityFacts(log2);
      Pow2Monotone(log2, Log2());
      if best < Capacity() {
        var _ := ChangeTableSize(best, mallocOk);
      }
    }

    /**
     * compact asks bestCapacity for more than its asserted limit exactly when
     * there are more entries than that. The capacity is then the largest, and
     * the answer is that capacity: nothing is left to compact.
     */
    lemma CompactBeyondMaxInit()
      requires Valid() && mEntryCount > MAX_INIT
      ensures mTable.Storage? && RawCapacity() == Pow2(MAX_LOG2) && mEntryCount <= MAX_ENTRIES
      ensures BestCapacity(mEntryCount) == Capacity()
    {
      hide Inv, Count, PrepareHash, BestCapacity, Pow2, CeilingLog2;
      assert |Contents| > 0;
      Pow2Values();
      Pow2Monotone(Log2(), MAX_LOG2 - 1);
      Pow2Monotone(Log2(), MAX_LOG2);
      assert Log2() == MAX_LOG2;
      var log2 := BestCapacityFits(mEntryCount);
      Pow2Monotone(log2, MAX_LOG2 - 1);
    }

    constructor (hasher: K -> HashNumber, aLen: nat)
      requires aLen <= MAX_INIT
      ensures Valid() && Contents == map[] && mTable.NoStorage?
      ensures this.hasher == hasher && RawCapacity() == BestCapacity(aLen) && mGen == 0
    {
      ghost var log2 := BestCapacityFits(aLen);
      CapacityFacts(log2);
      this.hasher := hasher;
      mGen := 0;
      mHashShift := HASH_BITS - CeilingLog2(BestCapacity(aLen));
      mTable := NoStorage;
      mEntryCount, mRemovedCount := 0, 0;
      Contents := map[];
    }

    // ----- the public operations

    /** A slot that find results and AddPtrs may name. */
    ghost predicate SlotHolds(s: nat, key: K)
      requires Separate()
      reads this, Repr()
    {
      && mTable.Storage? && s < mTable.hashes.Length && s < mTable.entries.Length
      && IsLiveHash(mTable.hashes[s]) && key in Contents
      && mTable.entries[s] == HashMapEntry(key, Contents[key])
    }

    lemma SlotIsHeld(s: nat)
      requires Consistent() && mTable.Storage? && s < mTable.hashes.Length == mTable.entries.Length && IsLiveHash(mTable.hashes[s])
      ensures SlotHolds(s, mTable.entries[s].key)
    {
      hide Inv, IsLiveHash, Count, Pow2, PrepareHash;
      OldShape();
      assert mTable.hashes[..][s] == mTable.hashes[s] && mTable.entries[..][s] == mTable.entries[s];
    }

    /** hashKnown: the hash policy has a hash for the key already; it never makes one here. */
    method Lookup(key: K, hashKnown: bool) returns (p: Option<nat>)
      requires Valid()
      ensures p.Some? <==> hashKnown && key in Contents
      ensures p.Some? ==> SlotHolds(p.value, key)
    {
      hide Inv, Count, PrepareHash, Pow2;
      if mEntryCount == 0 {
        return None;
      }
      if !hashKnown {
        return None;
      }
      CapacityFacts(Log2());
      var s := LookupSlot(key, PrepareHash(hasher(key)));
      return if IsLiveHash(mTable.hashes[s]) then Some(s) else None;
    }

    /** Whether the lookup behind an AddPtr met the key. */
    predicate Found(p: AddPtr)
      requires p.slot.Some? ==> mTable.Storage? && p.slot.value < mTable.hashes.Length
      reads this, if mTable.Storage? then {mTable.hashes} else {}
    {
      p.slot.Some? && IsLiveHash(mTable.hashes[p.slot.value])
    }

    /** A new entry for key would take a tombstone's place. */
    ghost predicate Recycles(key: K)
      requires ValidShift() && (mTable.Storage? ==> mTable.hashes.Length == Pow2(Log2()))
      reads this, Repr()
    {
      mTable.Storage? && RecyclesIn(mTable.hashes[..], PrepareHash(hasher(key)), Log2())
    }

    /** Whether an absent key can be added: by what its entry would replace. */
    ghost predicate AddsNew(key: K, simulatedOk: bool, mallocOk: bool)
      requires ValidShift() && (mTable.Storage? ==> mTable.hashes.Length == Pow2(Log2()))
      reads this, Repr()
    {
      if mTable.NoStorage? then mallocOk
      else if Recycles(key) then simulatedOk
      else if Overloaded() then RoomForOne(mallocOk)
      else simulatedOk
    }

    /** What an AddPtr for key promises until the table is next mutated. */
    ghost predicate ValidAddPtr(p: AddPtr, key: K)
      requires Separate() && ValidShift()
      reads this, Repr()
    {
      IsLiveHash(p.keyHash) ==>
        && p.keyHash == PrepareHash(hasher(key))
        && (p.slot.Some? <==> mTable.Storage?)
        && (p.slot.Some? ==>
              && p.slot.value < mTable.hashes.Length == mTable.entries.Length == Pow2(Log2())
              && (Found(p) <==> key in Contents)
              && (Found(p) ==> SlotHolds(p.slot.value, key))
              && (!Found(p) ==> Reachable(mTable.hashes[..], p.keyHash, Log2(), p.slot.value)))
    }

    method LookupForAdd(key: K, hashOk: bool) returns (p: AddPtr)
      requires Valid()
      modifies Repr()
      ensures Valid() && Contents == old(Contents)
      ensures IsLiveHash(p.keyHash) <==> hashOk
      ensures !hashOk ==> p.slot.None?
      ensures ValidAddPtr(p, key)
      ensures p.slot.Some? && key !in Contents ==> (mTable.hashes[p.slot.value] == REMOVED_KEY <==> old(Recycles(key)))
      // on a miss: the first slot on the probe path that holds no entry
      ensures p.slot.Some? && key !in Contents ==>
        FirstWithoutEntry(old(mTable.hashes[..]), p.keyHash, Log2(), p.slot.value)
    {
      hide Inv, Count, PrepareHash, Pow2, Reachable, FirstNonLive, FirstWithoutEntry, RecyclesIn, Probe;
      if !hashOk {
        return AddPtr(None, 0);
      }
      var keyHash := PrepareHash(hasher(key));
      if mTable.NoStorage? {
        return AddPtr(None, keyHash);
      }
      CapacityFacts(Log2());
      SlotsLength(Contents);
      var s := LookupSlotForAdd(key, keyHash);
      SlotsLength(Contents);
      if key !in Contents {
        RecyclesAt(old(mTable.hashes[..]), PrepareHash(hasher(key)), Log2(), s);
        FirstNonLiveMeets(old(mTable.hashes[..]), keyHash, Log2(), s);
      }
      return AddPtr(Some(s), keyHash);
    }

    /** setLive on a known slot, with the bookkeeping of an insertion. */
    method SetLive(s: nat, key: K, keyHash: HashNumber, value: V)
      requires Slots(Contents) && mEntryCount == |Contents|
      requires mRemovedCount == Count(Tombstone, mTable.hashes[..])
      requires s < mTable.hashes.Length && !IsLiveHash(mTable.hashes[s])
      requires key !in Contents && keyHash == PrepareHash(hasher(key))
      requires Reachable(mTable.hashes[..], keyHash, Log2(), s)
      modifies this`mEntryCount, this`mRemovedCount, this`Contents, mTable.hashes, mTable.entries
      ensures Consistent() && Contents == old(Contents)[key := value]
      ensures mRemovedCount == old(mRemovedCount) - if old(mTable.hashes[s]) == REMOVED_KEY then 1 else 0
      ensures SlotHolds(s, key)
    {
      hide Inv, Count, PrepareHash, Pow2, Reachable, StoredHash;
      ghost var h, e := mTable.hashes[..], mTable.entries[..];
      InsertKeepsInv(h, e, Log2(), hasher, Contents, s, key, value);
      StoredHashIsLive(h[s], keyHash);
      SlotsLength(Contents);
      var stored := keyHash;
      if mTable.hashes[s] == REMOVED_KEY {
        mRemovedCount := mRemovedCount - 1;
        stored := SetBit(stored);
      }
      assert stored == StoredHash(h[s], keyHash) by { StoredHashCases(h[s], keyHash); }
      mTable.hashes[s] := stored;
      mTable.entries[s] := HashMapEntry(key, value);
      mEntryCount := mEntryCount + 1;
      Contents := Contents[key := value];
      assert mTable.hashes[..] == h[s := stored];
      assert mTable.entries[..] == e[s := HashMapEntry(key, value)];
    }

    /** findNonLiveSlot on a table in use: the marks it leaves change nothing that is represented. */
    method FindSlotForNew(keyHash: HashNumber) returns (s: nat)
      requires Consistent() && mTable.Storage? && mEntryCount < RawCapacity()
      modifies mTable.hashes
      ensures Consistent()
      ensures s < mTable.hashes.Length && !IsLiveHash(mTable.hashes[s])
      ensures Reachable(mTable.hashes[..], keyHash, Log2(), s)
      ensures mTable.hashes.Length == Pow2(Log2())
      ensures mTable.hashes[s] == REMOVED_KEY <==> old(RecyclesIn(mTable.hashes[..], keyHash, Log2()))
    {
      hide Inv, Pow2, Reachable, Marks, IsLiveHash, Count, FirstNonLive, RecyclesIn;
      ghost var h, e := mTable.hashes[..], mTable.entries[..];
      SlotsLength(Contents);
      InvShape(h, e, Log2(), hasher, Contents);
      s := FindNonLiveSlot(keyHash);
      RecyclesAt(h, keyHash, Log2(), s);
      MarksSpareDead(h, mTable.hashes[..], s);
      MarksKeepInv(h, mTable.hashes[..], e, Log2(), hasher, Contents);
    }

    method PutNewInfallibleInternal(key: K, keyHash: HashNumber, value: V)
      requires Consistent() && mTable.Storage? && mEntryCount < RawCapacity()
      requires key !in Contents && keyHash == PrepareHash(hasher(key))
      modifies this`mEntryCount, this`mRemovedCount, this`Contents, mTable.hashes, mTable.entries
      ensures Consistent() && Contents == old(Contents)[key := value]
      ensures mEntryCount == old(mEntryCount) + 1
      ensures mRemovedCount == old(mRemovedCount) - if old(RecyclesIn(mTable.hashes[..], keyHash, Log2())) then 1 else 0
    {
      hide Inv, Pow2, Reachable, Count, PrepareHash, RecyclesIn;
      var s := FindSlotForNew(keyHash);
      SetLive(s, key, keyHash, value);
    }

    method PutNew(key: K, value: V, simulatedOk: bool, hashOk: bool, mallocOk: bool) returns (ok: bool)
      requires Valid() && key !in Contents
      modifies this, Repr()
      ensures Valid() && fresh(Repr() - old(Repr()))
      ensures ok == (simulatedOk && hashOk && old(RoomForOne(mallocOk)))
      // below three quarters the allocator is not asked
      ensures old(mTable.Storage? && 4 * (mEntryCount + mRemovedCount) < 3 * RawCapacity()) ==>
        && ok == (simulatedOk && hashOk) && mTable == old(mTable) && RawCapacity() == old(RawCapacity())
        && (ok ==> mRemovedCount == old(mRemovedCount) - if old(Recycles(key)) then 1 else 0)
      // otherwise it is, for as much again if a quarter is tombstones and for twice as much if not
      ensures old(mTable.NoStorage? || 4 * (mEntryCount + mRemovedCount) >= 3 * RawCapacity()) ==>
        var capacity := old(if mTable.NoStorage? || 4 * mRemovedCount >= RawCapacity() then RawCapacity() else 2 * RawCapacity());
        && ok == (simulatedOk && hashOk && mallocOk && capacity <= 0x4000_0000)
        && (ok ==> fresh(Repr()) && RawCapacity() == capacity && mRemovedCount == 0)
      ensures ok ==> mEntryCount == old(mEntryCount) + 1
      ensures !ok ==> unchanged(this) && unchanged(old(Repr()))
      ensures mRemovedCount <= old(mRemovedCount)
      ensures Contents == if ok then old(Contents)[key := value] else old(Contents)
    {
      hide Inv, Pow2, Reachable, Count, PrepareHash, RecyclesIn;
      CapacityFacts(Log2());
      if !simulatedOk {
        return false;
      }
      if !hashOk {
        return false;
      }
      var keyHash := PrepareHash(hasher(key));
      var status := RehashIfOverloaded(mallocOk);
      if status == RehashFailed {
        return false;
      }
      if status == NotOverloaded {
        assert mTable.hashes[..] == old(mTable.hashes[..]);
      }
      PutNewInfallibleInternal(key, keyHash, value);
      return true;
    }

    /** Whether add() can succeed: by the kind of slot its AddPtr names. */
    predicate AddSucceeds(p: AddPtr, simulatedOk: bool, mallocOk: bool)
      requires ValidShift()
      requires p.slot.Some? ==> mTable.Storage? && p.slot.value < mTable.hashes.Length
      reads this, if mTable.Storage? then {mTable.hashes} else {}
    {
      && IsLiveHash(p.keyHash)
      && if p.slot.None? then mallocOk
         else if mTable.hashes[p.slot.value] == REMOVED_KEY then simulatedOk
         else if Overloaded() then RoomForOne(mallocOk)
         else simulatedOk
    }

    method Add(p: AddPtr, key: K, value: V, simulatedOk: bool, mallocOk: bool) returns (ok: bool)
      requires Valid() && key !in Contents && ValidAddPtr(p, key)
      requires p.slot.Some? ==> mTable.Storage? && p.slot.value < mTable.hashes.Length
      modifies this, Repr()
      ensures Valid() && fresh(Repr() - old(Repr()))
      ensures ok == old(AddSucceeds(p, simulatedOk, mallocOk))
      // recycling a tombstone, or taking a free slot below three quarters, asks only for simulated memory
      ensures p.slot.Some? && old(mTable.hashes[p.slot.value] == REMOVED_KEY || 4 * (mEntryCount + mRemovedCount) < 3 * RawCapacity()) ==>
        ok == (IsLiveHash(p.keyHash) && simulatedOk) && mTable == old(mTable) && RawCapacity() == old(RawCapacity())
      // the rest asks the allocator: for the first storage, for as much again or for twice as much
      ensures p.slot.Some? && old(mTable.hashes[p.slot.value] != REMOVED_KEY && 4 * (mEntryCount + mRemovedCount) >= 3 * RawCapacity()) ==>
        var capacity := old(if 4 * mRemovedCount >= RawCapacity() then RawCapacity() else 2 * RawCapacity());
        && ok == (IsLiveHash(p.keyHash) && mallocOk && capacity <= 0x4000_0000)
        && (ok ==> fresh(Repr()) && RawCapacity() == capacity && mRemovedCount == 0)
      ensures p.slot.None? ==> ok == (IsLiveHash(p.keyHash) && mallocOk) && RawCapacity() == old(RawCapacity())
      ensures !ok ==> unchanged(this) && unchanged(old(Repr()))
      ensures Contents == if ok then old(Contents)[key := value] else old(Contents)
    {
      hide Inv, Pow2, Reachable, Count, PrepareHash, CeilingLog2;
      CapacityFacts(Log2());
      if !IsLiveHash(p.keyHash) {
        return false;
      }
      var slot: nat;
      if p.slot.None? {
        var status := ChangeTableSize(RawCapacity(), mallocOk);
        if status == RehashFailed {
          return false;
        }
        slot := FindSlotForNew(p.keyHash);
      } else if mTable.hashes[p.slot.value] == REMOVED_KEY {
        if !simulatedOk {
          return false;
        }
        slot := p.slot.value;
      } else {
        slot := p.slot.value;
        var status := RehashIfOverloaded(mallocOk);
        if status == RehashFailed {
          return false;
        }
        if status == NotOverloaded && !simulatedOk {
          return false;
        }
        if status == Rehashed {
          slot := FindSlotForNew(p.keyHash);
        } else {
          assert mTable.hashes[..] == old(mTable.hashes[..]);
        }
      }
      SetLive(slot, key, p.keyHash, value);
      return true;
    }

    method RemoveSlot(s: nat, ghost key: K)
      requires Consistent() && Separate() && SlotHolds(s, key)
      modifies this`mEntryCount, this`mRemovedCount, this`Contents, mTable.hashes
      ensures Consistent() && Contents == old(Contents) - {key}
      ensures mEntryCount == old(mEntryCount) - 1
      ensures mRemovedCount == old(mRemovedCount) + if HasCollision(old(mTable.hashes[s])) then 1 else 0
      ensures !IsLiveHash(mTable.hashes[s])
      ensures forall i :: 0 <= i < mTable.hashes.Length && i != s ==> mTable.hashes[i] == old(mTable.hashes[i])
    {
      hide Inv, Pow2, Count, PrepareHash, VacatedHash;
      ghost var h, e := mTable.hashes[..], mTable.entries[..];
      RemoveKeepsInv(h, e, Log2(), hasher, Contents, s);
      RemoveSize(Contents, key);
      VacatedCases(h[s]);
      if HasCollision(mTable.hashes[s]) {
        mTable.hashes[s] := REMOVED_KEY;
        mRemovedCount := mRemovedCount + 1;
      } else {
        mTable.hashes[s] := FREE_KEY;
      }
      mEntryCount := mEntryCount - 1;
      Contents := Contents - {key};
      assert mTable.hashes[..] == h[s := VacatedHash(h[s])];
    }

    /** Removal through a found slot, which may shrink the table. */
    method Remove(s: nat, ghost key: K, mallocOk: bool)
      requires Valid() && Separate() && SlotHolds(s, key)
      modifies this, Repr()
      ensures Valid() && Contents == old(Contents) - {key} && fresh(Repr() - old(Repr()))
      ensures Capacity() == if old(Capacity()) > 4 && old(mEntryCount) - 1 <= old(Capacity()) / 4 && mallocOk
                            then old(Capacity()) / 2 else old(Capacity())
      ensures Capacity() == old(Capacity()) ==>
        mTable == old(mTable) && mRemovedCount == old(mRemovedCount) + if HasCollision(old(mTable.hashes[s])) then 1 else 0
    {
      hide Inv, Pow2, Count, PrepareHash;
      RemoveSlot(s, key);
      ShrinkIfUnderloaded(mallocOk);
    }

    method RekeyWithoutRehash(s: nat, ghost key: K, newKey: K)
      requires Consistent() && Underfull() && Separate() && SlotHolds(s, key)
      requires newKey !in Contents - {key}
      modifies this`mEntryCount, this`mRemovedCount, this`Contents, mTable.hashes, mTable.entries
      ensures Consistent() && Contents == (old(Contents) - {key})[newKey := old(Contents)[key]]
      ensures mEntryCount == old(mEntryCount)
    {
      hide Inv, Pow2, Count, PrepareHash;
      CapacityFacts(Log2());
      RemoveSize(Contents, key);
      var value := mTable.entries[s].value;
      RemoveSlot(s, key);
      var keyHash := PrepareHash(hasher(newKey));
      PutNewInfallibleInternal(newKey, keyHash, value);
    }

    method RekeyAndMaybeRehash(s: nat, ghost key: K, newKey: K, mallocOk: bool)
      requires Valid() && Separate() && SlotHolds(s, key)
      requires newKey !in Contents - {key}
      modifies this, Repr()
      ensures Valid() && Contents == (old(Contents) - {key})[newKey := old(Contents)[key]]
      ensures fresh(Repr() - old(Repr()))
    {
      hide Inv, Pow2, Count, PrepareHash;
      CapacityFacts(Log2());
      RekeyWithoutRehash(s, key, newKey);
      InfallibleRehashIfOverloaded(mallocOk);
    }

    method Reserve(aLen: nat, mallocOk: bool) returns (ok: bool)
      requires Valid()
      modifies this, Repr()
      ensures Valid() && Contents == old(Contents) && fresh(Repr() - old(Repr()))
      ensures ok == (aLen == 0 || (aLen <= MAX_INIT && (BestCapacity(aLen) <= old(Capacity()) || mallocOk)))
      ensures ok ==> 4 * aLen <= 3 * Capacity()
      ensures ok && aLen > 0 && BestCapacity(aLen) > old(Capacity()) ==> Capacity() == BestCapacity(aLen) && mRemovedCount == 0
      ensures !ok || aLen == 0 || BestCapacity(aLen) <= old(Capacity()) ==> unchanged(this) && unchanged(old(Repr()))
    {
      hide Inv, Pow2, Count, PrepareHash, CeilingLog2, BestCapacity;
      if aLen == 0 {
        return true;
      }
      if aLen > MAX_INIT {
        return false;
      }
      CapacityFacts(Log2());
      var best := BestCapacity(aLen);
      ghost var log2 := BestCapacityFits(aLen);
      CapacityFacts(log2);
      if best <= Capacity() {
        return true;
      }
      var status := ChangeTableSize(best, mallocOk);
      return status != RehashFailed;
    }

    method Clear()
      requires Valid()
      modifies this`mEntryCount, this`mRemovedCount, this`Contents, Repr()
      ensures Valid() && Contents == map[] && mRemovedCount == 0
    {
      hide Inv, Pow2, Count, PrepareHash;
      CapacityFacts(Log2());
      if mTable.Storage? {
        SlotsLength(Contents);
        for i := 0 to mTable.hashes.Length
          invariant forall j :: 0 <= j < i ==> mTable.hashes[j] == FREE_KEY
        {
          mTable.hashes[i] := FREE_KEY;
        }
        EmptyInv(mTable.hashes[..], mTable.entries[..], Log2(), hasher);
      }
      mRemovedCount := 0;
      mEntryCount := 0;
      Contents := map[];
    }

    method ClearAndCompact(mallocOk: bool)
      requires Valid()
      modifies this, Repr()
      ensures Valid() && Contents == map[] && mTable.NoStorage? && fresh(Repr() - old(Repr()))
    {
      hide Inv, Pow2, Count, PrepareHash, BestCapacity;
      Clear();
      Compact(mallocOk);
    }

    method PutNewInfallible(key: K, value: V)
      requires Consistent() && mTable.Storage? && mEntryCount < RawCapacity() && key !in Contents
      modifies this`mEntryCount, this`mRemovedCount, this`Contents, mTable.hashes, mTable.entries
      ensures Consistent() && Contents == old(Contents)[key := value]
      ensures 4 * (old(mEntryCount + mRemovedCount) + 1) <= 3 * RawCapacity() ==> Valid()
    {
      hide Inv, Pow2, Count, PrepareHash;
      PutNewInfallibleInternal(key, PrepareHash(hasher(key)), value);
    }

    /** relookupOrAdd: the table may have changed since p was obtained, only its hash is still used. */
    method RelookupOrAdd(p: AddPtr, key: K, value: V, simulatedOk: bool, mallocOk: bool) returns (ok: bool)
      requires Valid() && (IsLiveHash(p.keyHash) ==> p.keyHash == PrepareHash(hasher(key)))
      modifies this, Repr()
      ensures Valid() && fresh(Repr() - old(Repr()))
      ensures key in old(Contents) ==> ok == IsLiveHash(p.keyHash) && Contents == old(Contents)
      ensures key !in old(Contents) ==> Contents == if ok then old(Contents)[key := value] else old(Contents)
      ensures ok <==> IsLiveHash(p.keyHash) && (key in old(Contents) || old(AddsNew(key, simulatedOk, mallocOk)))
      ensures key !in old(Contents) && old(mTable.Storage? && (Recycles(key) || 4 * (mEntryCount + mRemovedCount) < 3 * RawCapacity())) ==>
        ok == (IsLiveHash(p.keyHash) && simulatedOk) && mTable == old(mTable) && RawCapacity() == old(RawCapacity())
      ensures key !in old(Contents) && old(mTable.Storage? && !Recycles(key) && 4 * (mEntryCount + mRemovedCount) >= 3 * RawCapacity()) ==>
        var capacity := old(if 4 * mRemovedCount >= RawCapacity() then RawCapacity() else 2 * RawCapacity());
        ok == (IsLiveHash(p.keyHash) && mallocOk && capacity <= 0x4000_0000) && (ok ==> RawCapacity() == capacity && mRemovedCount == 0)
      ensures key !in old(Contents) && old(mTable.NoStorage?) ==>
        ok == (IsLiveHash(p.keyHash) && mallocOk) && RawCapacity() == old(RawCapacity())
      ensures key in old(Contents) ==> mTable == old(mTable) && RawCapacity() == old(RawCapacity())
    {
      hide Inv, Pow2, Count, PrepareHash, Reachable, FirstNonLive, RecyclesIn;
      CapacityFacts(Log2());
      if !IsLiveHash(p.keyHash) {
        return false;
      }
      var p' := AddPtr(None, p.keyHash);
      if mTable.Storage? {
        SlotsLength(Contents);
        var s := LookupSlotForAdd(key, p.keyHash);
        SlotsLength(Contents);
        if key !in Contents {
          RecyclesAt(old(mTable.hashes[..]), PrepareHash(hasher(key)), Log2(), s);
        }
        p' := AddPtr(Some(s), p.keyHash);
        if Found(p') {
          return true;
        }
      }
      ok := Add(p', key, value, simulatedOk, mallocOk);
    }

    // ----- mozilla::HashMap

    method Put(key: K, value: V, simulatedOk: bool, hashOk: bool, mallocOk: bool) returns (ok: bool)
      requires Valid()
      modifies this, Repr()
      ensures Valid() && fresh(Repr() - old(Repr()))
      ensures Contents == if ok then old(Contents)[key := value] else old(Contents)
      ensures ok <==> hashOk && (key in old(Contents) || old(AddsNew(key, simulatedOk, mallocOk)))
      ensures key !in old(Contents) && old(mTable.Storage? && (Recycles(key) || 4 * (mEntryCount + mRemovedCount) < 3 * RawCapacity())) ==>
        ok == (hashOk && simulatedOk) && mTable == old(mTable) && RawCapacity() == old(RawCapacity())
      ensures key !in old(Contents) && old(mTable.Storage? && !Recycles(key) && 4 * (mEntryCount + mRemovedCount) >= 3 * RawCapacity()) ==>
        var capacity := old(if 4 * mRemovedCount >= RawCapacity() then RawCapacity() else 2 * RawCapacity());
        ok == (hashOk && mallocOk && capacity <= 0x4000_0000) && (ok ==> RawCapacity() == capacity && mRemovedCount == 0)
      ensures key !in old(Contents) && old(mTable.NoStorage?) ==> ok == (hashOk && mallocOk) && RawCapacity() == old(RawCapacity())
      ensures key in old(Contents) ==> mTable == old(mTable) && RawCapacity() == old(RawCapacity())
    {
      hide Inv, Pow2, Count, PrepareHash, Reachable, Recycles;
      var p := LookupForAdd(key, hashOk);
      if p.slot.Some? && Found(p) {
        Overwrite(p.slot.value, key, value);
        return true;
      }
      CapacityFacts(Log2());
      if !IsLiveHash(p.keyHash) {
        return false;
      }
      ok := Add(p, key, value, simulatedOk, mallocOk);
    }

    /** Assignment through a found slot. */
    method Overwrite(s: nat, key: K, value: V)
      requires Valid() && Separate() && SlotHolds(s, key)
      modifies this`Contents, mTable.entries
      ensures Valid() && Contents == old(Contents)[key := value]
    {
      hide Inv, Pow2, Count, PrepareHash;
      ghost var e := mTable.entries[..];
      SlotsLength(Contents);
      OverwriteKeepsInv(mTable.hashes[..], e, Log2(), hasher, Contents, s, value);
      mTable.entries[s] := HashMapEntry(mTable.entries[s].key, value);
      Contents := Contents[key := value];
      assert mTable.entries[..] == e[s := HashMapEntry(key, value)];
    }

    method RemoveKey(key: K, hashKnown: bool, mallocOk: bool)
      requires Valid()
      modifies this, Repr()
      ensures Valid() && fresh(Repr() - old(Repr()))
      ensures Contents == if hashKnown then old(Contents) - {key} else old(Contents)
    {
      hide Inv, Pow2, Count, PrepareHash;
      var p := Lookup(key, hashKnown);
      if p.Some? {
        Remove(p.value, key, mallocOk);
      } else if hashKnown {
        RemoveAbsent(Contents, key);
      }
    }

    method RekeyAs(oldKey: K, newKey: K, hashKnown: bool, mallocOk: bool) returns (found: bool)
      requires Valid() && newKey !in Contents - {oldKey}
      modifies this, Repr()
      ensures Valid() && fresh(Repr() - old(Repr()))
      ensures found <==> hashKnown && oldKey in old(Contents)
      ensures Contents == if found then (old(Contents) - {oldKey})[newKey := old(Contents)[oldKey]] else old(Contents)
    {
      hide Inv, Pow2, Count, PrepareHash;
      var p := Lookup(oldKey, hashKnown);
      if p.Some? {
        RekeyAndMaybeRehash(p.value, oldKey, newKey, mallocOk);
        return true;
      }
      return false;
    }
  }

  /** HashTable::ModIterator: removes and rekeys during a traversal, and rehashes only at its end. */
  class ModIterator<K(0,==), V(0)> {
    const table: HashTable<K, V>
    var mCur: nat
    var mRekeyed: bool
    var mRemoved: bool

    /** Rekeying may leave more tombstones than the load bound allows, never more live entries. */
    ghost predicate Valid()
      reads this, table, table.Repr()
    {
      && table.Consistent() && table.Underfull() && mCur <= table.Capacity()
      && (!mRekeyed ==> table.Valid())
      && (mRekeyed ==> table.mTable.Storage?)
    }

    predicate Done()
      requires table.ValidShift()
      reads this, table
    {
      mCur == table.Capacity()
    }

    /** The current slot is live, so get(), remove() and rekey() are allowed. */
    ghost predicate AtEntry()
      reads this, table, table.Repr()
    {
      table.mTable.Storage? && mCur < table.mTable.hashes.Length && IsLiveHash(table.mTable.hashes[mCur])
    }

    constructor (table: HashTable<K, V>)
      requires table.Valid()
      ensures this.table == table && Valid() && (!Done() ==> AtEntry())
      ensures !mRekeyed && !mRemoved
      ensures table.mTable.Storage? ==>
        forall j :: 0 <= j < mCur && j < table.mTable.hashes.Length ==> !IsLiveHash(table.mTable.hashes[j])
    {
      hide Inv, Pow2, Count, IsLiveHash;
      var first := 0;
      if first < table.Capacity() {
        table.SlotsLength(table.Contents);
        if !IsLiveHash(table.mTable.hashes[first]) {
          first := NextLive(table, first);
        }
      }
      this.table := table;
      mCur := first;
      mRekeyed, mRemoved := false, false;
    }

    /** The next live slot after cur, or the end of the table. */
    static method NextLive(table: HashTable<K, V>, cur: nat) returns (next: nat)
      requires table.Consistent() && cur < table.Capacity()
      ensures cur < next <= table.Capacity() == table.mTable.hashes.Length
      ensures next < table.Capacity() ==> IsLiveHash(table.mTable.hashes[next])
      ensures forall j :: cur < j < next ==> !IsLiveHash(table.mTable.hashes[j])
    {
      hide Inv, Pow2, Count, IsLiveHash;
      table.SlotsLength(table.Contents);
      next := cur + 1;
      while next < table.Capacity() && !IsLiveHash(table.mTable.hashes[next])
        invariant cur < next <= table.Capacity()
        invariant forall j :: cur < j < next ==> !IsLiveHash(table.mTable.hashes[j])
      {
        next := next + 1;
      }
    }

    /** Skips to the next live slot and no further. */
    method Next()
      requires Valid() && !Done()
      modifies this`mCur
      ensures Valid() && old(mCur) < mCur && (!Done() ==> AtEntry())
      ensures table.mTable.Storage? && mCur <= table.mTable.hashes.Length
      ensures forall j :: old(mCur) < j < mCur ==> !IsLiveHash(table.mTable.hashes[j])
    {
      hide Inv, Pow2, Count, IsLiveHash;
      mCur := NextLive(table, mCur);
    }

    method Remove(ghost key: K)
      requires Valid() && AtEntry() && table.Separate() && table.SlotHolds(mCur, key)
      modifies this`mRemoved, table`mEntryCount, table`mRemovedCount, table`Contents, table.mTable.hashes
      ensures Valid() && table.Contents == old(table.Contents) - {key} && mRemoved
      ensures !IsLiveHash(table.mTable.hashes[mCur])
      ensures forall i :: 0 <= i < table.mTable.hashes.Length && i != mCur ==> table.mTable.hashes[i] == old(table.mTable.hashes[i])
    {
      hide Inv, Pow2, Count, PrepareHash;
      table.RemoveSlot(mCur, key);
      mRemoved := true;
    }

    method Rekey(ghost key: K, newKey: K)
      requires Valid() && AtEntry() && table.Separate() && table.SlotHolds(mCur, key)
      requires newKey !in table.Contents - {key}
      modifies this`mRekeyed, table`mEntryCount, table`mRemovedCount, table`Contents, table.mTable.hashes, table.mTable.entries
      ensures Valid() && table.Contents == (old(table.Contents) - {key})[newKey := old(table.Contents)[key]] && mRekeyed
    {
      hide Inv, Pow2, Count, PrepareHash;
      table.RekeyWithoutRehash(mCur, key, newKey);
      mRekeyed := true;
    }

    /** The destructor restores the load bound, whatever the allocator answers. */
    method Finish(mallocOkRehash: bool, mallocOkCompact: bool)
      requires Valid()
      modifies table, table.Repr()
      ensures table.Valid() && table.Contents == old(table.Contents) && fresh(table.Repr() - old(table.Repr()))
      ensures mRemoved && table.Contents == map[] ==> table.mTable.NoStorage?
      ensures mRemoved && table.Contents != map[] && mallocOkCompact ==> table.Capacity() == BestCapacity(|table.Contents|)
      ensures !mRekeyed && (!mRemoved || !mallocOkCompact) && table.Contents != map[] ==> table.Capacity() == old(table.Capacity())
    {
      hide Inv, Pow2, Count, PrepareHash, BestCapacity;
      if mRekeyed {
        table.mGen := table.mGen + 1;
        table.InfallibleRehashIfOverloaded(mallocOkRehash);
      }
      if mRemoved {
        table.Compact(mallocOkCompact);
      }
    }
  }

  /** Tables of every size up to the load limit exist, those beyond bestCapacity's asserted limit among them. */
  method FillTable(hasher: int -> HashNumber, n: nat) returns (t: HashTable<int, int>)
    requires n <= MAX_ENTRIES
    ensures t.Valid() && t.mEntryCount == n
  {
    hide Inv, Count, PrepareHash, BestCapacity, Pow2, CeilingLog2;
    t := new HashTable(hasher, 0);
    for i := 0 to n
      invariant t.Valid() && t.mEntryCount == i && t.mRemovedCount == 0 && fresh(t) && fresh(t.Repr())
      invariant forall k :: k in t.Contents ==> k < i
    {
      CapacityFacts(t.Log2());
      Pow2Values();
      assert t.RoomForOne(true) by { RoomWhenClean(t); }
      var _ := t.PutNew(i, 0, true, true, true);
    }
  }

  lemma RoomWhenClean<K(0), V(0)>(t: HashTable<K, V>)
    requires t.Valid() && t.mRemovedCount == 0 && t.mEntryCount < MAX_ENTRIES
    ensures t.RoomForOne(true)
  {
    hide Inv, Count, Pow2, CeilingLog2;
    Pow2Values();
    CapacityFacts(t.Log2());
    if t.Log2() < MAX_LOG2 {
      Pow2Monotone(t.Log2(), MAX_LOG2 - 1);
    } else {
      assert t.Log2() == MAX_LOG2;
    }
  }

  // ----- a traversal that removes

  /** The keys met so far are exactly those without a live slot from cur on. */
  ghost predicate MetUpTo<K, V>(h: seq<HashNumber>, e: seq<HashMapEntry<K, V>>, m: map<K, V>, met: seq<K>, cur: nat)
    requires |h| == |e|
  {
    && Distinct(met) && (forall k :: k in met ==> k in m)
    && (forall j :: cur <= j < |h| && IsLiveHash(h[j]) ==> e[j].key !in met)
    && (forall k :: k in m && k !in met ==> LiveFrom(h, e, k, cur))
  }

  ghost predicate LiveFrom<K, V>(h: seq<HashNumber>, e: seq<HashMapEntry<K, V>>, k: K, cur: nat)
    requires |h| == |e|
  {
    exists j :: cur <= j < |h| && IsLiveHash(h[j]) && e[j].key == k
  }

  /** All keys not yet met have their entries, and the rest only if they were to be kept. */
  ghost predicate KeptSoFar<K, V>(m: map<K, V>, now: map<K, V>, met: seq<K>, gone: set<K>) {
    && (forall k :: k in now ==> k in m && now[k] == m[k] && !(k in met && k in gone))
    && (forall k :: k in m && !(k in met && k in gone) ==> k in now)
  }

  lemma MetNone<K, V>(h: seq<HashNumber>, e: seq<HashMapEntry<K, V>>, hash: K -> HashNumber, m: map<K, V>, cur: nat)
    requires Represents(h, e, hash, m) && cur <= |h| && forall j :: 0 <= j < cur ==> !IsLiveHash(h[j])
    ensures MetUpTo(h, e, m, [], cur)
  {
    hide IsLiveHash;
    forall k | k in m
      ensures LiveFrom(h, e, k, cur)
    {
      assert Stored(h, e, k);
    }
  }

  /** The entry at cur is met next; nothing live lies between it and the slot the traversal goes to. */
  lemma MetOne<K, V>(h: seq<HashNumber>, h': seq<HashNumber>, e: seq<HashMapEntry<K, V>>, hash: K -> HashNumber, now: map<K, V>,
                     m: map<K, V>, met: seq<K>, cur: nat, next: nat)
    requires Represents(h, e, hash, now) && MetUpTo(h, e, m, met, cur)
    requires cur < next <= |h| == |h'| && IsLiveHash(h[cur]) && e[cur].key in m
    requires forall j :: 0 <= j < |h| && j != cur ==> h'[j] == h[j]
    requires forall j :: cur < j < next ==> !IsLiveHash(h'[j])
    ensures MetUpTo(h', e, m, met + [e[cur].key], next)
  {
    hide IsLiveHash;
    var met' := met + [e[cur].key];
    assert Distinct(met');
    forall k | k in m && k !in met'
      ensures LiveFrom(h', e, k, next)
    {
      assert LiveFrom(h, e, k, cur);
      var j :| cur <= j < |h| && IsLiveHash(h[j]) && e[j].key == k;
      assert j != cur && j >= next;
    }
  }

  lemma NothingLiveFrom<K, V>(h: seq<HashNumber>, e: seq<HashMapEntry<K, V>>, k: K)
    requires |h| == |e|
    ensures !LiveFrom(h, e, k, |h|)
  {
  }

  lemma MetAll<K, V>(h: seq<HashNumber>, e: seq<HashMapEntry<K, V>>, m: map<K, V>, now: map<K, V>, met: seq<K>, gone: set<K>)
    requires |h| == |e| && MetUpTo(h, e, m, met, |h|) && KeptSoFar(m, now, met, gone)
    ensures Distinct(met) && forall k :: k in m <==> k in met
    ensures now == m - gone
  {
    forall k | k in m
      ensures k in met
    {
      NothingLiveFrom(h, e, k);
    }
    assert now.Keys == (m - gone).Keys;
  }

  lemma KeptOneMore<K, V>(m: map<K, V>, now: map<K, V>, met: seq<K>, gone: set<K>, key: K)
    requires KeptSoFar(m, now, met, gone)
    ensures KeptSoFar(m, if key in gone then now - {key} else now, met + [key], gone)
  {
  }

  /** What holds before each step of a traversal that removes the keys in gone. */
  ghost predicate Sweeping<K(0), V(0)>(t: HashTable<K, V>, it: ModIterator<K, V>, m: map<K, V>, met: seq<K>, gone: set<K>)
    reads it, t, t.Repr()
  {
    && it.table == t && t.Consistent() && t.mTable.Storage? && it.Valid() && !it.mRekeyed && (!it.Done() ==> it.AtEntry())
    && t.mTable.hashes.Length == t.mTable.entries.Length == t.Capacity()
    && MetUpTo(t.mTable.hashes[..], t.mTable.entries[..], m, met, it.mCur)
    && KeptSoFar(m, t.Contents, met, gone)
  }

  /** One entry is met, removed if it is to go, and the traversal moves on. */
  method VisitOne<K(0,==), V(0)>(t: HashTable<K, V>, it: ModIterator<K, V>, ghost m: map<K, V>, ghost met: seq<K>, gone: set<K>)
    returns (key: K)
    requires Sweeping(t, it, m, met, gone) && !it.Done()
    modifies it, t`mEntryCount, t`mRemovedCount, t`Contents, t.mTable.hashes
    ensures Sweeping(t, it, m, met + [key], gone) && it.mCur > old(it.mCur)
  {
    hide Inv, Pow2, Count, PrepareHash, IsLiveHash, MetUpTo, KeptSoFar, Represents;
    ghost var h, e, now, cur := t.mTable.hashes[..], t.mTable.entries[..], t.Contents, it.mCur;
    t.OldShape();
    key := t.mTable.entries[it.mCur].key;
    t.SlotIsHeld(it.mCur);
    if key in gone {
      it.Remove(key);
    }
    it.Next();
    KeptOneMore(m, now, met, gone, key);
    KeptIsOld(m, now, met, gone, key);
    MetOne(h, t.mTable.hashes[..], e, t.hasher, now, m, met, cur, it.mCur);
    t.SlotsLength(t.Contents);
  }

  lemma KeptIsOld<K, V>(m: map<K, V>, now: map<K, V>, met: seq<K>, gone: set<K>, key: K)
    requires KeptSoFar(m, now, met, gone) && key in now
    ensures key in m
  {
  }

  lemma NothingMet<K(0), V(0)>(t: HashTable<K, V>, it: ModIterator<K, V>, gone: set<K>)
    requires it.table == t && t.mTable.Storage? && it.Valid() && !it.mRekeyed && (!it.Done() ==> it.AtEntry())
    requires forall j :: 0 <= j < it.mCur && j < t.mTable.hashes.Length ==> !IsLiveHash(t.mTable.hashes[j])
    ensures Sweeping(t, it, t.Contents, [], gone)
  {
    hide Inv, Pow2, Count, PrepareHash, IsLiveHash, MetUpTo, Represents;
    t.OldShape();
    t.SlotsLength(t.Contents);
    MetNone(t.mTable.hashes[..], t.mTable.entries[..], t.hasher, t.Contents, it.mCur);
  }

  /** Visits every entry exactly once, removing those whose keys are to go. */
  method RemoveAll<K(0,==), V(0)>(t: HashTable<K, V>, gone: set<K>, mallocOk: bool) returns (met: seq<K>)
    requires t.Valid()
    modifies t, t.Repr()
    ensures t.Valid() && fresh(t.Repr() - old(t.Repr())) && t.Contents == old(t.Contents) - gone
    ensures Distinct(met) && forall k :: k in met <==> k in old(t.Contents)
  {
    hide Inv, Pow2, Count, PrepareHash, IsLiveHash, MetUpTo, KeptSoFar, Represents, BestCapacity;
    ghost var m := t.Contents;
    met := [];
    if t.mTable.NoStorage? {
      return;
    }
    var it := new ModIterator(t);
    NothingMet(t, it, gone);
    while !it.Done()
      invariant Sweeping(t, it, m, met, gone) && t.mTable == old(t.mTable) && fresh(it)
      decreases t.Capacity() - it.mCur
    {
      var key := VisitOne(t, it, m, met, gone);
      met := met + [key];
    }
    MetAll(t.mTable.hashes[..], t.mTable.entries[..], m, t.Contents, met, gone);
    it.Finish(mallocOk, mallocOk);
  }

  // ----- whole runs

  /** One call on the map, with the answers the allocator and the hasher will give it. */
  datatype Op<K, V> =
    | OpPut(key: K, value: V, simulatedOk: bool, hashOk: bool, mallocOk: bool)
    | OpPutNew(key: K, value: V, simulatedOk: bool, hashOk: bool, mallocOk: bool)
    | OpLookup(key: K, hashKnown: bool)
    | OpLookupForAdd(key: K, hashOk: bool)
    | OpRelookupOrAdd(key: K, value: V, hashOk: bool, simulatedOk: bool, mallocOk: bool)
    | OpRemove(key: K, hashKnown: bool, mallocOk: bool)
    | OpRemoveAll(gone: set<K>, mallocOk: bool)
    | OpRekey(key: K, newKey: K, hashKnown: bool, mallocOk: bool)
    | OpReserve(len: nat, mallocOk: bool)
    | OpCompact(mallocOk: bool)
    | OpClear

  /** putNew and rekeyAs are called only for keys that are not in use. */
  ghost predicate Allowed<K, V>(m: map<K, V>, op: Op<K, V>) {
    match op
    case OpPutNew(key, _, _, _, _) => key !in m
    case OpRekey(key, newKey, _, _) => newKey !in m - {key}
    case _ => true
  }

  /** What the call does to a plain finite map, given whether it reported success. */
  ghost function Apply<K, V>(m: map<K, V>, op: Op<K, V>, ok: bool): map<K, V> {
    match op
    case OpPut(key, value, _, _, _) => if ok then m[key := value] else m
    case OpPutNew(key, value, _, _, _) => if ok then m[key := value] else m
    case OpLookup(_, _) => m
    case OpLookupForAdd(_, _) => m
    case OpRelookupOrAdd(key, value, _, _, _) => if ok && key !in m then m[key := value] else m
    case OpRemove(key, hashKnown, _) => if hashKnown then m - {key} else m
    case OpRemoveAll(gone, _) => m - gone
    case OpRekey(key, newKey, _, _) => if ok && key in m then (m - {key})[newKey := m[key]] else m
    case OpReserve(_, _) => m
    case OpCompact(_) => m
    case OpClear => map[]
  }

  /** What the call reports: exactly when it finds its key, adds its pair or makes its room. */
  ghost predicate Reports<K(0), V(0)>(t: HashTable<K, V>, op: Op<K, V>)
    requires t.ValidShift() && (t.mTable.Storage? ==> t.mTable.hashes.Length == Pow2(t.Log2()))
    reads t, t.Repr()
  {
    match op
    case OpPut(key, _, simulatedOk, hashOk, mallocOk) => hashOk && (key in t.Contents || t.AddsNew(key, simulatedOk, mallocOk))
    case OpPutNew(_, _, simulatedOk, hashOk, mallocOk) => simulatedOk && hashOk && t.RoomForOne(mallocOk)
    case OpLookup(key, hashKnown) => hashKnown && key in t.Contents
    case OpLookupForAdd(key, hashOk) => hashOk && key in t.Contents
    case OpRelookupOrAdd(key, _, hashOk, simulatedOk, mallocOk) =>
      hashOk && (key in t.Contents || t.AddsNew(key, simulatedOk, mallocOk))
    case OpRekey(key, _, hashKnown, _) => hashKnown && key in t.Contents
    case OpReserve(len, mallocOk) => len == 0 || (len <= MAX_INIT && (BestCapacity(len) <= t.Capacity() || mallocOk))
    case _ => true
  }

  predicate IsAddition<K, V>(op: Op<K, V>) {
    op.OpPut? || op.OpPutNew? || op.OpRelookupOrAdd?
  }

  ghost predicate AllowedRun<K, V>(m: map<K, V>, ops: seq<Op<K, V>>, oks: seq<bool>)
    requires |oks| <= |ops|
  {
    forall i :: 0 <= i < |oks| ==> Allowed(ApplyRun(m, ops[..i], oks[..i]), ops[i])
  }

  ghost function ApplyRun<K, V>(m: map<K, V>, ops: seq<Op<K, V>>, oks: seq<bool>): map<K, V>
    requires |ops| == |oks|
  {
    if ops == [] then m
    else var n := |ops| - 1; Apply(ApplyRun(m, ops[..n], oks[..n]), ops[n], oks[n])
  }

  predicate OnlySearches<K, V>(op: Op<K, V>) {
    op.OpLookup? || op.OpLookupForAdd?
  }

  method PerformSearch<K(0,==), V(0)>(t: HashTable<K, V>, op: Op<K, V>) returns (ok: bool)
    requires t.Valid() && OnlySearches(op)
    modifies t.Repr()
    ensures t.Valid() && t.Contents == old(t.Contents)
    ensures ok <==> op.key in t.Contents && if op.OpLookup? then op.hashKnown else op.hashOk
  {
    hide Inv, Pow2, Count, PrepareHash;
    match op
    case OpLookup(key, hashKnown) =>
      var p := t.Lookup(key, hashKnown);
      ok := p.Some?;
    case OpLookupForAdd(key, hashOk) =>
      var p := t.LookupForAdd(key, hashOk);
      ok := p.slot.Some? && t.Found(p);
  }

  method PerformAddition<K(0,==), V(0)>(t: HashTable<K, V>, op: Op<K, V>) returns (ok: bool)
    requires t.Valid() && Allowed(t.Contents, op) && IsAddition(op)
    modifies t, t.Repr()
    ensures t.Valid() && fresh(t.Repr() - old(t.Repr()))
    ensures t.Contents == Apply(old(t.Contents), op, ok) && ok == old(Reports(t, op))
    // three quarters not reached: no allocation; reached: putNew, or any addition that recycles no tombstone, needs one
    ensures old(op.key !in t.Contents && t.mTable.Storage? && 4 * (t.mEntryCount + t.mRemovedCount) < 3 * t.RawCapacity()) ==>
      ok == (op.hashOk && op.simulatedOk) && t.mTable == old(t.mTable)
    ensures old(op.key !in t.Contents && t.mTable.Storage? && 4 * (t.mEntryCount + t.mRemovedCount) >= 3 * t.RawCapacity()
                && (op.OpPutNew? || !t.Recycles(op.key))) ==>
      var capacity := old(if 4 * t.mRemovedCount >= t.RawCapacity() then t.RawCapacity() else 2 * t.RawCapacity());
      && ok == (op.hashOk && op.mallocOk && (op.OpPutNew? ==> op.simulatedOk) && capacity <= 0x4000_0000)
      && (ok ==> t.RawCapacity() == capacity)
  {
    hide Inv, Pow2, Count, PrepareHash, RecyclesIn;
    match op
    case OpPut(key, value, simulatedOk, hashOk, mallocOk) => ok := t.Put(key, value, simulatedOk, hashOk, mallocOk);
    case OpPutNew(key, value, simulatedOk, hashOk, mallocOk) => ok := t.PutNew(key, value, simulatedOk, hashOk, mallocOk);
    case OpRelookupOrAdd(key, value, hashOk, simulatedOk, mallocOk) =>
      var p := AddPtr(None, if hashOk then PrepareHash(t.hasher(key)) else 0);
      ok := t.RelookupOrAdd(p, key, value, simulatedOk, mallocOk);
  }

  method Perform<K(0,==), V(0)>(t: HashTable<K, V>, op: Op<K, V>) returns (ok: bool)
    requires t.Valid() && Allowed(t.Contents, op)
    modifies t, t.Repr()
    ensures t.Valid() && fresh(t.Repr() - old(t.Repr()))
    ensures t.Contents == Apply(old(t.Contents), op, ok) && ok == old(Reports(t, op))
    // three quarters not reached: no allocation; reached: putNew, or any addition that recycles no tombstone, needs one
    ensures old(IsAddition(op) && op.key !in t.Contents && t.mTable.Storage?
                && 4 * (t.mEntryCount + t.mRemovedCount) < 3 * t.RawCapacity()) ==>
      ok == (op.hashOk && op.simulatedOk) && t.mTable == old(t.mTable)
    ensures old(IsAddition(op) && op.key !in t.Contents && t.mTable.Storage? && 4 * (t.mEntryCount + t.mRemovedCount) >= 3 * t.RawCapacity()
                && (op.OpPutNew? || !t.Recycles(op.key))) ==>
      var capacity := old(if 4 * t.mRemovedCount >= t.RawCapacity() then t.RawCapacity() else 2 * t.RawCapacity());
      && ok == (op.hashOk && op.mallocOk && (op.OpPutNew? ==> op.simulatedOk) && capacity <= 0x4000_0000)
      && (ok ==> t.RawCapacity() == capacity)
  {
    hide Inv, Pow2, Count, PrepareHash, BestCapacity, RecyclesIn, Reports, Apply, Allowed;
    if OnlySearches(op) {
      SearchesReport(t, op);
      ok := PerformSearch(t, op);
    } else if IsAddition(op) {
      ok := PerformAddition(t, op);
    } else {
      ok := PerformOther(t, op);
    }
  }

  lemma SearchesReport<K(0), V(0)>(t: HashTable<K, V>, op: Op<K, V>)
    requires t.Valid() && OnlySearches(op)
    ensures Apply(t.Contents, op, true) == Apply(t.Contents, op, false) == t.Contents
    ensures Reports(t, op) <==> op.key in t.Contents && if op.OpLookup? then op.hashKnown else op.hashOk
  {
    hide Inv, Pow2, Count, PrepareHash, BestCapacity;
  }

  method PerformOther<K(0,==), V(0)>(t: HashTable<K, V>, op: Op<K, V>) returns (ok: bool)
    requires t.Valid() && Allowed(t.Contents, op) && !OnlySearches(op) && !IsAddition(op)
    modifies t, t.Repr()
    ensures t.Valid() && fresh(t.Repr() - old(t.Repr()))
    ensures t.Contents == Apply(old(t.Contents), op, ok) && ok == old(Reports(t, op))
  {
    hide Inv, Pow2, Count, PrepareHash, BestCapacity, RecyclesIn;
    ok := true;
    match op
    case OpRemove(key, hashKnown, mallocOk) => t.RemoveKey(key, hashKnown, mallocOk);
    case OpRemoveAll(gone, mallocOk) => var _ := RemoveAll(t, gone, mallocOk);
    case OpRekey(key, newKey, hashKnown, mallocOk) => ok := t.RekeyAs(key, newKey, hashKnown, mallocOk);
    case OpReserve(len, mallocOk) => ok := t.Reserve(len, mallocOk);
    case OpCompact(mallocOk) => t.Compact(mallocOk);
    case OpClear => t.Clear();
  }

  /** Refinement over every run: after any prefix of allowed calls the table is valid and holds exactly
      the finite map those calls build; the run stops at the first call that is not allowed. */
  method Run<K(0,==), V(0)>(t: HashTable<K, V>, ops: seq<Op<K, V>>) returns (oks: seq<bool>)
    requires t.Valid()
    modifies t, t.Repr()
    ensures t.Valid() && |oks| <= |ops|
    ensures AllowedRun(old(t.Contents), ops, oks)
    ensures t.Contents == ApplyRun(old(t.Contents), ops[..|oks|], oks)
    ensures |oks| < |ops| ==> !Allowed(t.Contents, ops[|oks|])
  {
    hide Inv, Pow2, Count, PrepareHash, Apply, Allowed;
    oks := [];
    ghost var m := t.Contents;
    while |oks| < |ops|
      invariant t.Valid() && |oks| <= |ops| && fresh(t.Repr() - old(t.Repr()))
      invariant AllowedRun(m, ops, oks)
      invariant t.Contents == ApplyRun(m, ops[..|oks|], oks)
    {
      var op := ops[|oks|];
      var allowed := IsAllowed(t, op);
      if !allowed {
        return;
      }
      var ok := Perform(t, op);
      ExtendRun(m, ops, oks, ok);
      oks := oks + [ok];
    }
  }

  method IsAllowed<K(0,==), V(0)>(t: HashTable<K, V>, op: Op<K, V>) returns (allowed: bool)
    requires t.Valid()
    ensures allowed <==> Allowed(t.Contents, op)
  {
    hide Inv, Pow2, Count, PrepareHash;
    match op
    case OpPutNew(key, _, _, _, _) =>
      var p := t.Lookup(key, true);
      allowed := p.None?;
    case OpRekey(key, newKey, _, _) =>
      var p := t.Lookup(newKey, true);
      allowed := p.None? || key == newKey;
    case _ =>
      allowed := true;
  }

  lemma ExtendRun<K, V>(m: map<K, V>, ops: seq<Op<K, V>>, oks: seq<bool>, ok: bool)
    requires |oks| < |ops| && AllowedRun(m, ops, oks)
    requires Allowed(ApplyRun(m, ops[..|oks|], oks), ops[|oks|])
    ensures AllowedRun(m, ops, oks + [ok])
    ensures ApplyRun(m, ops[..|oks| + 1], oks + [ok]) == Apply(ApplyRun(m, ops[..|oks|], oks), ops[|oks|], ok)
  {
    hide Allowed, Apply;
    var n := |oks|;
    var oks' := oks + [ok];
    assert ops[..n + 1][..n] == ops[..n] && oks'[..n] == oks;
    forall i | 0 <= i < |oks'|
      ensures Allowed(ApplyRun(m, ops[..i], oks'[..i]), ops[i])
    {
      assert oks'[..i] == oks[..i];
      if i == n {
        assert oks[..n] == oks;
      }
    }
  }
}
