/** Moving entries: what changeTableSize keeps while it fills a new store, and what
    rehashTableInPlace keeps while it permutes the old one. */
module HashRehash {
  import opened Basics
  import opened HashArith
  import opened HashSlots

  /** A matching slot is live and holds the pair recorded for its key. */
  lemma HitIsStored<K, V>(h: seq<HashNumber>, e: seq<HashMapEntry<K, V>>, log2: nat, hash: K -> HashNumber,
                          m: map<K, V>, s: nat, key: K)
    requires Inv(h, e, log2, hash, m)
    requires s < |h| && Matches(h, e, s, PrepareHash(hash(key)), key)
    ensures IsLiveHash(h[s]) && key in m && e[s] == HashMapEntry(key, m[key])
  {
  }

  // ----- filling a new store

  /** done holds the entries moved so far; the live slots of h from i on hold exactly the rest of m. */
  ghost predicate Pending<K, V>(h: seq<HashNumber>, e: seq<HashMapEntry<K, V>>, i: nat, m: map<K, V>, done: map<K, V>)
    requires |h| == |e|
  {
    && i <= |h|
    && (forall k :: k in done ==> k in m && done[k] == m[k])
    && (forall j :: i <= j < |h| && IsLiveHash(h[j]) ==> e[j].key !in done)
    && (forall k :: k in m && k !in done ==> StoredFrom(h, e, i, k))
  }

  ghost predicate StoredFrom<K, V>(h: seq<HashNumber>, e: seq<HashMapEntry<K, V>>, i: nat, k: K)
    requires |h| == |e|
  {
    exists j :: i <= j < |h| && IsLiveHash(h[j]) && e[j].key == k
  }

  lemma PendingStart<K, V>(h: seq<HashNumber>, e: seq<HashMapEntry<K, V>>, hash: K -> HashNumber, m: map<K, V>)
    requires Represents(h, e, hash, m)
    ensures Pending(h, e, 0, m, map[])
  {
    forall k | k in m
      ensures StoredFrom(h, e, 0, k)
    {
      assert Stored(h, e, k);
    }
  }

  lemma PendingSkip<K, V>(h: seq<HashNumber>, e: seq<HashMapEntry<K, V>>, i: nat, m: map<K, V>, done: map<K, V>)
    requires |h| == |e| && i < |h| && Pending(h, e, i, m, done) && !IsLiveHash(h[i])
    ensures Pending(h, e, i + 1, m, done)
  {
    forall k | k in m && k !in done
      ensures StoredFrom(h, e, i + 1, k)
    {
      assert StoredFrom(h, e, i, k);
    }
  }

  lemma PendingMove<K, V>(h: seq<HashNumber>, e: seq<HashMapEntry<K, V>>, hash: K -> HashNumber, i: nat,
                          m: map<K, V>, done: map<K, V>)
    requires Represents(h, e, hash, m)
    requires i < |h| && Pending(h, e, i, m, done) && IsLiveHash(h[i])
    ensures e[i].key !in done && StripBit(h[i]) == PrepareHash(hash(e[i].key))
    ensures |done| < |m|
    ensures Pending(h, e, i + 1, m, done[e[i].key := e[i].value])
  {
    var done' := done[e[i].key := e[i].value];
    forall k | k in m && k !in done'
      ensures StoredFrom(h, e, i + 1, k)
    {
      assert StoredFrom(h, e, i, k);
    }
    GrowsWithin(done, m, e[i].key, e[i].value);
  }

  lemma GrowsWithin<K, V>(done: map<K, V>, m: map<K, V>, key: K, value: V)
    requires done.Keys <= m.Keys && key in m && key !in done
    ensures |done| < |m|
  {
    var done' := done[key := value];
    assert done'.Keys <= m.Keys;
    SubsetSize(done'.Keys, m.Keys);
    assert |done'.Keys| == |done'|;
  }

  lemma PendingEnd<K, V>(h: seq<HashNumber>, e: seq<HashMapEntry<K, V>>, m: map<K, V>, done: map<K, V>)
    requires |h| == |e| && Pending(h, e, |h|, m, done)
    ensures done == m
  {
    assert forall k :: k in m && k !in done ==> !StoredFrom(h, e, |h|, k);
    assert done.Keys == m.Keys;
  }

  // ----- rehashing in place

  ghost predicate NoTombstones(h: seq<HashNumber>) {
    forall i :: 0 <= i < |h| ==> h[i] != REMOVED_KEY
  }

  /** During the rehash a collision bit means: this entry has reached its final slot. */
  ghost predicate Placed(h: seq<HashNumber>, log2: nat)
    requires ValidLog2(log2) && |h| == Pow2(log2)
  {
    forall i :: 0 <= i < |h| && IsLiveHash(h[i]) && HasCollision(h[i]) ==> Reachable(h, StripBit(h[i]), log2, i)
  }

  ghost predicate Scanned(h: seq<HashNumber>, i: nat) {
    i <= |h| && forall j :: 0 <= j < i ==> !Is(Unplaced, h[j])
  }

  lemma UnsetKeeps<K, V>(h: seq<HashNumber>, h': seq<HashNumber>, e: seq<HashMapEntry<K, V>>,
                         hash: K -> HashNumber, m: map<K, V>)
    requires Represents(h, e, hash, m)
    requires |h| == |h'| && forall i :: 0 <= i < |h| ==> h'[i] == StripBit(h[i])
    ensures Represents(h', e, hash, m) && NoTombstones(h')
    ensures Count(Live, h') == Count(Live, h)
    ensures forall i :: 0 <= i < |h'| ==> !HasCollision(h'[i])
  {
    LiveAfterUnset(h, h');
    CountPointwise(Live, h, h');
    forall k | k in m
      ensures Stored(h', e, k)
    {
      assert Stored(h, e, k);
      var i :| 0 <= i < |h| && IsLiveHash(h[i]) && e[i].key == k;
      assert IsLiveHash(h'[i]);
    }
  }

  lemma LiveAfterUnset(h: seq<HashNumber>, h': seq<HashNumber>)
    requires |h| == |h'| && forall i :: 0 <= i < |h| ==> h'[i] == StripBit(h[i])
    ensures forall i :: 0 <= i < |h| ==> IsLiveHash(h'[i]) == IsLiveHash(h[i])
    ensures forall i :: 0 <= i < |h| ==> StripBit(h'[i]) == StripBit(h[i]) && !HasCollision(h'[i])
    ensures NoTombstones(h')
  {
  }

  /** e' is e with the entries of slots i and t exchanged; a dead slot's content does not matter. */
  ghost predicate Exchanged<K, V>(h: seq<HashNumber>, e: seq<HashMapEntry<K, V>>, e': seq<HashMapEntry<K, V>>, i: nat, t: nat)
    requires |h| == |e| && i < |h| && t < |h|
  {
    && |e'| == |e|
    && e'[t] == e[i]
    && (IsLiveHash(h[t]) ==> e'[i] == e[t])
    && forall j :: 0 <= j < |e| && j != i && j != t ==> e'[j] == e[j]
  }

  function SwapHashes(h: seq<HashNumber>, i: nat, t: nat): seq<HashNumber>
    requires i < |h| && t < |h|
  {
    h[i := h[t]][t := SetBit(h[i])]
  }

  lemma SetBitFacts(x: HashNumber)
    ensures HasCollision(SetBit(x)) && StripBit(SetBit(x)) == StripBit(x) && SetBit(x) != FREE_KEY
    ensures IsLiveHash(x) ==> IsLiveHash(SetBit(x)) && SetBit(x) != REMOVED_KEY
    ensures !HasCollision(x) ==> StripBit(x) == x
  {
    assert SetBit(x) == x / 2 * 2 + 1;
    assert StripBit(x) == x / 2 * 2;
    OddFacts(x / 2);
  }

  lemma OddFacts(q: nat)
    ensures (q * 2 + 1) % 2 == 1 && (q * 2 + 1) / 2 == q
  {
  }

  lemma SwapRepresents<K, V>(h: seq<HashNumber>, e: seq<HashMapEntry<K, V>>, e': seq<HashMapEntry<K, V>>,
                             hash: K -> HashNumber, m: map<K, V>, i: nat, t: nat)
    requires Represents(h, e, hash, m)
    requires i < |h| && t < |h| && IsLiveHash(h[i]) && Exchanged(h, e, e', i, t)
    ensures Represents(SwapHashes(h, i, t), e', hash, m)
  {
    hide IsLiveHash, HasCollision, StripBit, SetBit, PrepareHash;
    var h' := SwapHashes(h, i, t);
    SetBitFacts(h[i]);
    forall k | k in m
      ensures Stored(h', e', k)
    {
      assert Stored(h, e, k);
      var x :| 0 <= x < |h| && IsLiveHash(h[x]) && e[x].key == k;
      var y := if x == i then t else if x == t then i else x;
      assert IsLiveHash(h'[y]) && e'[y].key == k;
    }
  }

  lemma SwapPlaces(h: seq<HashNumber>, log2: nat, i: nat, t: nat)
    requires ValidLog2(log2) && |h| == Pow2(log2)
    requires Placed(h, log2) && NoTombstones(h) && Scanned(h, i)
    requires i < |h| && Is(Unplaced, h[i])
    requires t < |h| && !HasCollision(h[t]) && Reachable(h, h[i], log2, t)
    ensures Placed(SwapHashes(h, i, t), log2)
    ensures NoTombstones(SwapHashes(h, i, t))
    ensures Scanned(SwapHashes(h, i, t), i)
  {
    hide IsLiveHash, HasCollision, StripBit, SetBit, Reachable;
    var h' := SwapHashes(h, i, t);
    SetBitFacts(h[i]);
    forall x | 0 <= x < |h'| && IsLiveHash(h'[x]) && HasCollision(h'[x])
      ensures Reachable(h', StripBit(h'[x]), log2, x)
    {
      if x == t {
        ReachableGrows(h, h', h[i], log2, t);
      } else {
        assert h'[x] == h[x];
        ReachableGrows(h, h', StripBit(h[x]), log2, x);
      }
    }
  }

  lemma SwapCounts(h: seq<HashNumber>, i: nat, t: nat)
    requires i < |h| && t < |h| && Is(Unplaced, h[i]) && !HasCollision(h[t])
    ensures Count(Unplaced, SwapHashes(h, i, t)) == Count(Unplaced, h) - 1
    ensures Count(Live, SwapHashes(h, i, t)) == Count(Live, h)
  {
    hide IsLiveHash, HasCollision, StripBit, SetBit;
    SetBitFacts(h[i]);
    CountUpdate(Unplaced, h, i, h[t]);
    CountUpdate(Unplaced, h[i := h[t]], t, SetBit(h[i]));
    CountUpdate(Live, h, i, h[t]);
    CountUpdate(Live, h[i := h[t]], t, SetBit(h[i]));
  }

  lemma UnplacedIsLive(x: HashNumber)
    ensures Is(Unplaced, x) <==> IsLiveHash(x) && !HasCollision(x)
  {
  }

  lemma NothingPlaced(h: seq<HashNumber>, log2: nat)
    requires ValidLog2(log2) && |h| == Pow2(log2)
    requires forall i :: 0 <= i < |h| ==> !HasCollision(h[i])
    ensures Placed(h, log2) && Scanned(h, 0)
  {
  }

  lemma ScanStep(h: seq<HashNumber>, i: nat)
    requires Scanned(h, i) && i < |h|
    ensures Is(Unplaced, h[i]) <==> IsLiveHash(h[i]) && !HasCollision(h[i])
    ensures !Is(Unplaced, h[i]) ==> Scanned(h, i + 1)
  {
  }

  lemma AllPlaced(h: seq<HashNumber>, log2: nat)
    requires ValidLog2(log2) && |h| == Pow2(log2)
    requires Placed(h, log2) && NoTombstones(h) && Scanned(h, |h|)
    ensures AllReachable(h, log2)
    ensures Count(Tombstone, h) == 0
  {
    CountZero(Tombstone, h);
  }

  // ----- what "the same table" means

  /** The live slots as (hash without collision bit, entry) pairs. */
  ghost function LivePairs<K, V>(h: seq<HashNumber>, e: seq<HashMapEntry<K, V>>): set<(HashNumber, HashMapEntry<K, V>)>
    requires |h| == |e|
  {
    set i | 0 <= i < |h| && IsLiveHash(h[i]) :: (StripBit(h[i]), e[i])
  }

  /** Keys are unique, so the pairs of a table form a set that the represented map determines. */
  lemma PairsOfMap<K, V>(h: seq<HashNumber>, e: seq<HashMapEntry<K, V>>, hash: K -> HashNumber, m: map<K, V>)
    requires Represents(h, e, hash, m)
    ensures LivePairs(h, e) == set k | k in m :: (PrepareHash(hash(k)), HashMapEntry(k, m[k]))
  {
    hide IsLiveHash, StripBit, PrepareHash;
    var pairs := set k | k in m :: (PrepareHash(hash(k)), HashMapEntry(k, m[k]));
    forall p | p in LivePairs(h, e)
      ensures p in pairs
    {
      var i :| 0 <= i < |h| && IsLiveHash(h[i]) && p == (StripBit(h[i]), e[i]);
      assert e[i].key in m && p == (PrepareHash(hash(e[i].key)), HashMapEntry(e[i].key, m[e[i].key]));
    }
    forall k | k in m
      ensures (PrepareHash(hash(k)), HashMapEntry(k, m[k])) in LivePairs(h, e)
    {
      assert Stored(h, e, k);
      var i :| 0 <= i < |h| && IsLiveHash(h[i]) && e[i].key == k;
      assert (StripBit(h[i]), e[i]) == (PrepareHash(hash(k)), HashMapEntry(k, m[k]));
    }
  }
}
