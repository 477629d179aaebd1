/** What the slots of a mozilla::detail::HashTable mean, as pure facts about the cached
    hash codes h, the entries e and the finite map m they represent. */
module HashSlots {
  import opened Wrappers
  import opened Basics
  import opened HashArith

  datatype HashMapEntry<K, V> = HashMapEntry(key: K, value: V)

  // ----- counting slots

  datatype SlotKind = Live | Tombstone | Used | Unplaced

  predicate Is(kind: SlotKind, x: HashNumber) {
    match kind
    case Live => IsLiveHash(x)
    case Tombstone => x == REMOVED_KEY
    case Used => x != FREE_KEY
    case Unplaced => IsLiveHash(x) && !HasCollision(x)
  }

  ghost function Count(kind: SlotKind, h: seq<HashNumber>): (c: nat)
    ensures c <= |h|
  {
    if h == [] then 0
    else Count(kind, h[..|h| - 1]) + if Is(kind, h[|h| - 1]) then 1 else 0
  }

  lemma {:induction false} CountUpdate(kind: SlotKind, h: seq<HashNumber>, i: nat, x: HashNumber)
    requires i < |h|
    ensures Count(kind, h[i := x]) ==
            Count(kind, h) - (if Is(kind, h[i]) then 1 else 0) + (if Is(kind, x) then 1 else 0)
  {
    var n := |h| - 1;
    if i == n {
      assert h[i := x][..n] == h[..n];
    } else {
      assert h[i := x][..n] == h[..n][i := x];
      CountUpdate(kind, h[..n], i, x);
    }
  }

  lemma {:induction false} CountZero(kind: SlotKind, h: seq<HashNumber>)
    ensures Count(kind, h) == 0 <==> forall i :: 0 <= i < |h| ==> !Is(kind, h[i])
  {
    if h != [] {
      CountZero(kind, h[..|h| - 1]);
      assert forall i :: 0 <= i < |h| - 1 ==> h[..|h| - 1][i] == h[i];
    }
  }

  lemma {:induction false} CountNotFull(kind: SlotKind, h: seq<HashNumber>) returns (i: nat)
    requires Count(kind, h) < |h|
    ensures i < |h| && !Is(kind, h[i])
  {
    if Is(kind, h[|h| - 1]) {
      i := CountNotFull(kind, h[..|h| - 1]);
    } else {
      i := |h| - 1;
    }
  }

  lemma {:induction false} CountUsed(h: seq<HashNumber>)
    ensures Count(Used, h) == Count(Live, h) + Count(Tombstone, h)
  {
    if h != [] {
      CountUsed(h[..|h| - 1]);
    }
  }

  lemma {:induction false} CountPointwise(kind: SlotKind, h: seq<HashNumber>, h': seq<HashNumber>)
    requires |h| == |h'|
    requires forall i :: 0 <= i < |h| ==> Is(kind, h[i]) == Is(kind, h'[i])
    ensures Count(kind, h) == Count(kind, h')
  {
    if h != [] {
      CountPointwise(kind, h[..|h| - 1], h'[..|h| - 1]);
    }
  }

  // ----- the representation invariant

  /** The first n slots on the probe path of keyHash carry a collision bit or a tombstone. */
  ghost predicate PathMarked(h: seq<HashNumber>, keyHash: HashNumber, log2: nat, n: nat)
    requires ValidLog2(log2) && |h| == Pow2(log2)
  {
    forall j: nat :: j < n ==> HasCollision(h[Probe(keyHash, log2, j)])
  }

  ghost predicate Reachable(h: seq<HashNumber>, keyHash: HashNumber, log2: nat, s: nat)
    requires ValidLog2(log2) && |h| == Pow2(log2)
  {
    exists n: nat :: Probe(keyHash, log2, n) == s && PathMarked(h, keyHash, log2, n)
  }

  /** The first n slots on the probe path of keyHash are live. */
  ghost predicate PathLive(h: seq<HashNumber>, keyHash: HashNumber, log2: nat, n: nat)
    requires ValidLog2(log2) && |h| == Pow2(log2)
  {
    forall j: nat :: j < n ==> IsLiveHash(h[Probe(keyHash, log2, j)])
  }

  /** Where a new entry goes: the first tombstone or free slot on the probe path, whichever comes first. */
  ghost predicate FirstNonLive(h: seq<HashNumber>, keyHash: HashNumber, log2: nat, s: nat)
    requires ValidLog2(log2) && |h| == Pow2(log2)
  {
    s < |h| && !IsLiveHash(h[s]) && exists n: nat :: Probe(keyHash, log2, n) == s && PathLive(h, keyHash, log2, n)
  }

  lemma FirstNonLiveUnique(h: seq<HashNumber>, keyHash: HashNumber, log2: nat, s: nat, s': nat)
    requires ValidLog2(log2) && |h| == Pow2(log2)
    requires FirstNonLive(h, keyHash, log2, s) && FirstNonLive(h, keyHash, log2, s')
    ensures s == s'
  {
    hide Probe;
    var n: nat :| Probe(keyHash, log2, n) == s && PathLive(h, keyHash, log2, n);
    var n': nat :| Probe(keyHash, log2, n') == s' && PathLive(h, keyHash, log2, n');
  }

  /** An entry added along this path would take a tombstone's place. */
  ghost predicate FirstWithoutEntry(h: seq<HashNumber>, keyHash: HashNumber, log2: nat, s: nat)
    requires ValidLog2(log2) && |h| == Pow2(log2)
  {
    s < |h| && h[s] <= 1
    && exists n: nat :: Probe(keyHash, log2, n) == s && forall j: nat :: j < n ==> h[Probe(keyHash, log2, j)] > 1
  }

  /** In terms of the stored hashes: 0 is a free slot, 1 a tombstone, and anything above is an entry. */
  lemma FirstNonLiveMeets(h: seq<HashNumber>, keyHash: HashNumber, log2: nat, s: nat)
    requires ValidLog2(log2) && |h| == Pow2(log2) && FirstNonLive(h, keyHash, log2, s)
    ensures FirstWithoutEntry(h, keyHash, log2, s)
  {
    hide Probe;
    var n: nat :| Probe(keyHash, log2, n) == s && PathLive(h, keyHash, log2, n);
    forall j: nat | j < n
      ensures h[Probe(keyHash, log2, j)] > 1
    {
      assert IsLiveHash(h[Probe(keyHash, log2, j)]);
    }
  }

  ghost predicate RecyclesIn(h: seq<HashNumber>, keyHash: HashNumber, log2: nat)
    requires ValidLog2(log2) && |h| == Pow2(log2)
  {
    exists s: nat :: FirstNonLive(h, keyHash, log2, s) && h[s] == REMOVED_KEY
  }

  lemma RecyclesAt(h: seq<HashNumber>, keyHash: HashNumber, log2: nat, s: nat)
    requires ValidLog2(log2) && |h| == Pow2(log2) && FirstNonLive(h, keyHash, log2, s)
    ensures RecyclesIn(h, keyHash, log2) <==> h[s] == REMOVED_KEY
  {
    hide PathLive, Probe;
    if RecyclesIn(h, keyHash, log2) {
      var s': nat :| FirstNonLive(h, keyHash, log2, s') && h[s'] == REMOVED_KEY;
      FirstNonLiveUnique(h, keyHash, log2, s, s');
    }
  }

  lemma LivePathExtends(h: seq<HashNumber>, h': seq<HashNumber>, keyHash: HashNumber, log2: nat, n: nat)
    requires ValidLog2(log2) && |h| == |h'| == Pow2(log2) && Marks(h, h')
    requires PathLive(h, keyHash, log2, n)
    ensures PathLive(h', keyHash, log2, n)
    ensures var p := Probe(keyHash, log2, n);
            if IsLiveHash(h[p]) then PathLive(h', keyHash, log2, n + 1) else FirstNonLive(h', keyHash, log2, p)
  {
    hide Probe;
  }

  lemma FirstNonLiveBefore(h: seq<HashNumber>, h': seq<HashNumber>, keyHash: HashNumber, log2: nat, s: nat)
    requires ValidLog2(log2) && |h| == |h'| == Pow2(log2) && Marks(h, h')
    ensures FirstNonLive(h', keyHash, log2, s) <==> FirstNonLive(h, keyHash, log2, s)
  {
    hide Probe;
    if FirstNonLive(h', keyHash, log2, s) {
      var n: nat :| Probe(keyHash, log2, n) == s && PathLive(h', keyHash, log2, n);
      assert PathLive(h, keyHash, log2, n);
    }
    if FirstNonLive(h, keyHash, log2, s) {
      var n: nat :| Probe(keyHash, log2, n) == s && PathLive(h, keyHash, log2, n);
      assert PathLive(h', keyHash, log2, n);
    }
  }

  /** The live slots hold exactly the pairs of m, each key once, with its own hash cached. */
  ghost predicate Represents<K, V>(h: seq<HashNumber>, e: seq<HashMapEntry<K, V>>, hash: K -> HashNumber, m: map<K, V>)
  {
    && |h| == |e|
    && (forall i :: 0 <= i < |h| && IsLiveHash(h[i]) ==>
          e[i].key in m && m[e[i].key] == e[i].value && StripBit(h[i]) == PrepareHash(hash(e[i].key)))
    && (forall i, j :: 0 <= i < |h| && 0 <= j < |h| && IsLiveHash(h[i]) && IsLiveHash(h[j]) && e[i].key == e[j].key ==> i == j)
    && (forall k :: k in m ==> Stored(h, e, k))
  }

  ghost predicate Stored<K, V>(h: seq<HashNumber>, e: seq<HashMapEntry<K, V>>, k: K)
    requires |h| == |e|
  {
    exists i :: 0 <= i < |h| && IsLiveHash(h[i]) && e[i].key == k
  }

  ghost predicate AllReachable(h: seq<HashNumber>, log2: nat)
    requires ValidLog2(log2) && |h| == Pow2(log2)
  {
    forall i :: 0 <= i < |h| && IsLiveHash(h[i]) ==> Reachable(h, StripBit(h[i]), log2, i)
  }

  ghost predicate Inv<K, V>(h: seq<HashNumber>, e: seq<HashMapEntry<K, V>>, log2: nat, hash: K -> HashNumber, m: map<K, V>)
  {
    && ValidLog2(log2) && |h| == |e| == Pow2(log2)
    && Represents(h, e, hash, m)
    && AllReachable(h, log2)
    && Count(Live, h) == |m|
  }

  lemma InvShape<K, V>(h: seq<HashNumber>, e: seq<HashMapEntry<K, V>>, log2: nat, hash: K -> HashNumber, m: map<K, V>)
    requires Inv(h, e, log2, hash, m)
    ensures ValidLog2(log2) && |h| == |e| == Pow2(log2)
    ensures Count(Live, h) == |m|
  {
  }

  // ----- marking a probe path

  /** h' is h with some collision bits of live slots switched on. */
  ghost predicate Marks(h: seq<HashNumber>, h': seq<HashNumber>) {
    && |h| == |h'|
    && forall i :: 0 <= i < |h| ==>
         && StripBit(h'[i]) == StripBit(h[i])
         && IsLiveHash(h'[i]) == IsLiveHash(h[i])
         && (HasCollision(h[i]) ==> HasCollision(h'[i]))
         && (!IsLiveHash(h[i]) ==> h'[i] == h[i])
  }

  lemma MarksSpareDead(h: seq<HashNumber>, h': seq<HashNumber>, s: nat)
    requires Marks(h, h') && s < |h| && !IsLiveHash(h'[s])
    ensures h'[s] == h[s]
  {
  }

  lemma MarkSlot(h: seq<HashNumber>, s: nat)
    requires s < |h| && IsLiveHash(h[s])
    ensures Marks(h, h[s := SetBit(h[s])])
  {
  }

  lemma MarksSelf(h: seq<HashNumber>)
    ensures Marks(h, h)
  {
  }

  lemma MarksAt(h: seq<HashNumber>, h': seq<HashNumber>, i: nat)
    requires Marks(h, h') && i < |h|
    ensures StripBit(h'[i]) == StripBit(h[i]) && IsLiveHash(h'[i]) == IsLiveHash(h[i])
    ensures !IsLiveHash(h[i]) || !IsLiveHash(h'[i]) ==> h'[i] == h[i]
  {
  }

  lemma MarksTransitive(h: seq<HashNumber>, h': seq<HashNumber>, h'': seq<HashNumber>)
    requires Marks(h, h') && Marks(h', h'')
    ensures Marks(h, h'')
  {
  }

  lemma ReachableGrows(h: seq<HashNumber>, h': seq<HashNumber>, keyHash: HashNumber, log2: nat, s: nat)
    requires ValidLog2(log2) && |h| == |h'| == Pow2(log2)
    requires forall i :: 0 <= i < |h| && HasCollision(h[i]) ==> HasCollision(h'[i])
    requires Reachable(h, keyHash, log2, s)
    ensures Reachable(h', keyHash, log2, s)
  {
    var n: nat :| Probe(keyHash, log2, n) == s && PathMarked(h, keyHash, log2, n);
    assert PathMarked(h', keyHash, log2, n);
  }

  lemma MarksKeepInv<K, V>(h: seq<HashNumber>, h': seq<HashNumber>, e: seq<HashMapEntry<K, V>>, log2: nat,
                           hash: K -> HashNumber, m: map<K, V>)
    requires Inv(h, e, log2, hash, m) && Marks(h, h')
    ensures Inv(h', e, log2, hash, m)
    ensures Count(Tombstone, h') == Count(Tombstone, h)
  {
    CountPointwise(Live, h, h');
    CountPointwise(Tombstone, h, h');
    MarksKeepRepresents(h, h', e, hash, m);
    PathsSurvive(h, h', log2, |h|);
  }

  /** Paths survive as long as no collision bit is lost; slot s is exempt. */
  lemma PathsSurvive(h: seq<HashNumber>, h': seq<HashNumber>, log2: nat, s: nat)
    requires ValidLog2(log2) && |h| == |h'| == Pow2(log2)
    requires AllReachable(h, log2)
    requires forall i :: 0 <= i < |h| && HasCollision(h[i]) ==> HasCollision(h'[i])
    requires forall i :: 0 <= i < |h| && i != s && IsLiveHash(h'[i]) ==> IsLiveHash(h[i]) && StripBit(h'[i]) == StripBit(h[i])
    requires s < |h| && IsLiveHash(h'[s]) ==> Reachable(h', StripBit(h'[s]), log2, s)
    ensures AllReachable(h', log2)
  {
    forall i | 0 <= i < |h'| && IsLiveHash(h'[i])
      ensures Reachable(h', StripBit(h'[i]), log2, i)
    {
      if i != s {
        ReachableGrows(h, h', StripBit(h[i]), log2, i);
      }
    }
  }

  lemma MarksKeepRepresents<K, V>(h: seq<HashNumber>, h': seq<HashNumber>, e: seq<HashMapEntry<K, V>>,
                                  hash: K -> HashNumber, m: map<K, V>)
    requires Represents(h, e, hash, m) && Marks(h, h')
    ensures Represents(h', e, hash, m)
  {
    forall k | k in m
      ensures Stored(h', e, k)
    {
      assert Stored(h, e, k);
      var i :| 0 <= i < |h| && IsLiveHash(h[i]) && e[i].key == k;
      assert IsLiveHash(h'[i]);
    }
  }

  // ----- searching

  predicate Matches<K(==), V>(h: seq<HashNumber>, e: seq<HashMapEntry<K, V>>, s: nat, keyHash: HashNumber, key: K)
    requires s < |h| == |e|
  {
    StripBit(h[s]) == keyHash && e[s].key == key
  }

  /** No slot among the first n of the probe path matches. */
  ghost predicate NoMatch<K, V>(h: seq<HashNumber>, e: seq<HashMapEntry<K, V>>, log2: nat, keyHash: HashNumber, key: K, n: nat)
    requires ValidLog2(log2) && |h| == |e| == Pow2(log2)
  {
    forall j: nat :: j < n ==> !Matches(h, e, Probe(keyHash, log2, j), keyHash, key)
  }

  /** A stored key is met on its probe path before any free slot. */
  lemma HitComesFirst<K, V>(h: seq<HashNumber>, e: seq<HashMapEntry<K, V>>, log2: nat, hash: K -> HashNumber,
                            m: map<K, V>, i: nat, n: nat) returns (n': nat)
    requires Inv(h, e, log2, hash, m)
    requires i < |h| && IsLiveHash(h[i])
    requires h[Probe(PrepareHash(hash(e[i].key)), log2, n)] == FREE_KEY
    ensures n' < n && Matches(h, e, Probe(PrepareHash(hash(e[i].key)), log2, n'), PrepareHash(hash(e[i].key)), e[i].key)
  {
    var keyHash := PrepareHash(hash(e[i].key));
    assert Reachable(h, keyHash, log2, i);
    n' :| Probe(keyHash, log2, n') == i && PathMarked(h, keyHash, log2, n');
  }

  /** A search that runs into a free slot has missed nothing. */
  lemma MissMeansAbsent<K, V>(h: seq<HashNumber>, e: seq<HashMapEntry<K, V>>, log2: nat, hash: K -> HashNumber,
                              m: map<K, V>, key: K, n: nat)
    requires Inv(h, e, log2, hash, m)
    requires NoMatch(h, e, log2, PrepareHash(hash(key)), key, n)
    requires h[Probe(PrepareHash(hash(key)), log2, n)] == FREE_KEY
    ensures key !in m
  {
    if key in m {
      assert Stored(h, e, key);
      var i :| 0 <= i < |h| && IsLiveHash(h[i]) && e[i].key == key;
      var n' := HitComesFirst(h, e, log2, hash, m, i, n);
    }
  }

  /** A table that is not full of live entries and tombstones has a free slot on every probe path. */
  lemma FreeSlotOnPath(h: seq<HashNumber>, keyHash: HashNumber, log2: nat) returns (n: nat)
    requires ValidLog2(log2) && |h| == Pow2(log2)
    requires Count(Live, h) + Count(Tombstone, h) < |h|
    ensures n < |h| && h[Probe(keyHash, log2, n)] == FREE_KEY
  {
    CountUsed(h);
    var s := CountNotFull(Used, h);
    n := ProbeCovers(keyHash, log2, s);
  }

  lemma SlotOnPath(kind: SlotKind, h: seq<HashNumber>, keyHash: HashNumber, log2: nat) returns (n: nat)
    requires ValidLog2(log2) && |h| == Pow2(log2)
    requires Count(kind, h) < |h|
    ensures n < |h| && !Is(kind, h[Probe(keyHash, log2, n)])
  {
    var s := CountNotFull(kind, h);
    n := ProbeCovers(keyHash, log2, s);
  }

  /** The state of a search for an add after n probe steps: h is the table it started from, now the
      table it has marked, removed the first tombstone met. */
  ghost predicate Searching<K, V>(h: seq<HashNumber>, now: seq<HashNumber>, e: seq<HashMapEntry<K, V>>, log2: nat,
                                      keyHash: HashNumber, key: K, n: nat, removed: Option<nat>)
    requires ValidLog2(log2) && |h| == |e| == Pow2(log2)
  {
    && Marks(h, now)
    && NoMatch(h, e, log2, keyHash, key, n)
    && match removed
       case None => PathMarked(now, keyHash, log2, n) && PathLive(now, keyHash, log2, n)
       case Some(r) => r < |now| && now[r] == REMOVED_KEY && Reachable(now, keyHash, log2, r) && FirstNonLive(now, keyHash, log2, r)
  }

  lemma SearchStart<K, V>(h: seq<HashNumber>, e: seq<HashMapEntry<K, V>>, log2: nat, keyHash: HashNumber, key: K)
    requires ValidLog2(log2) && |h| == |e| == Pow2(log2)
    ensures Searching(h, h, e, log2, keyHash, key, 0, None)
  {
  }

  /** The next slot neither matches nor is free: step over it, marking it unless a tombstone is already in hand. */
  lemma SearchStep<K, V>(h: seq<HashNumber>, now: seq<HashNumber>, now': seq<HashNumber>, e: seq<HashMapEntry<K, V>>,
                         log2: nat, keyHash: HashNumber, key: K, n: nat, removed: Option<nat>, removed': Option<nat>)
    requires ValidLog2(log2) && |h| == |e| == Pow2(log2)
    requires Searching(h, now, e, log2, keyHash, key, n, removed)
    requires var p := Probe(keyHash, log2, n);
             && now[p] != FREE_KEY && !Matches(now, e, p, keyHash, key)
             && (if removed.Some? then now' == now && removed' == removed
                 else if now[p] == REMOVED_KEY then now' == now && removed' == Some(p)
                 else now' == now[p := SetBit(now[p])] && removed' == None)
    ensures Searching(h, now', e, log2, keyHash, key, n + 1, removed')
  {
    var p := Probe(keyHash, log2, n);
    MarksAt(h, now, p);
    if removed.None? {
      if now[p] == REMOVED_KEY {
        MarksSelf(now);
        LivePathExtends(now, now, keyHash, log2, n);
      } else {
        MarkStep(h, now, keyHash, log2, n);
        MarkSlot(now, p);
        LivePathExtends(now, now', keyHash, log2, n);
      }
    }
  }

  lemma SearchMiss<K, V>(h: seq<HashNumber>, now: seq<HashNumber>, e: seq<HashMapEntry<K, V>>, log2: nat,
                         hash: K -> HashNumber, m: map<K, V>, key: K, n: nat, removed: Option<nat>)
    requires Inv(h, e, log2, hash, m)
    requires Searching(h, now, e, log2, PrepareHash(hash(key)), key, n, removed)
    requires now[Probe(PrepareHash(hash(key)), log2, n)] == FREE_KEY
    ensures var s := if removed.Some? then removed.value else Probe(PrepareHash(hash(key)), log2, n);
            && Inv(now, e, log2, hash, m) && Count(Tombstone, now) == Count(Tombstone, h)
            && key !in m && s < |now| && !IsLiveHash(now[s])
            && Reachable(now, PrepareHash(hash(key)), log2, s) && FirstNonLive(h, PrepareHash(hash(key)), log2, s) && now[s] == h[s]
  {
    var p := Probe(PrepareHash(hash(key)), log2, n);
    if removed.None? {
      MarksSelf(now);
      LivePathExtends(now, now, PrepareHash(hash(key)), log2, n);
    }
    FirstNonLiveBefore(h, now, PrepareHash(hash(key)), log2, if removed.Some? then removed.value else p);
    MarksAt(h, now, if removed.Some? then removed.value else p);
    MarksAt(h, now, Probe(PrepareHash(hash(key)), log2, n));
    MissMeansAbsent(h, e, log2, hash, m, key, n);
    MarksKeepInv(h, now, e, log2, hash, m);
  }

  lemma SearchHit<K, V>(h: seq<HashNumber>, now: seq<HashNumber>, e: seq<HashMapEntry<K, V>>, log2: nat,
                        hash: K -> HashNumber, m: map<K, V>, key: K, n: nat, removed: Option<nat>)
    requires Inv(h, e, log2, hash, m)
    requires Searching(h, now, e, log2, PrepareHash(hash(key)), key, n, removed)
    requires Matches(now, e, Probe(PrepareHash(hash(key)), log2, n), PrepareHash(hash(key)), key)
    ensures Inv(now, e, log2, hash, m) && Count(Tombstone, now) == Count(Tombstone, h)
    ensures IsLiveHash(now[Probe(PrepareHash(hash(key)), log2, n)]) && key in m
    ensures e[Probe(PrepareHash(hash(key)), log2, n)] == HashMapEntry(key, m[key])
  {
    MarksKeepInv(h, now, e, log2, hash, m);
  }

  lemma SearchKeeps<K, V>(h: seq<HashNumber>, now: seq<HashNumber>, e: seq<HashMapEntry<K, V>>, log2: nat,
                          keyHash: HashNumber, key: K, n: nat, removed: Option<nat>, f: nat)
    requires ValidLog2(log2) && |h| == |e| == Pow2(log2)
    requires Searching(h, now, e, log2, keyHash, key, n, removed)
    ensures Marks(h, now) && |now| == |h|
    ensures h[Probe(keyHash, log2, f)] == FREE_KEY ==> now[Probe(keyHash, log2, f)] == FREE_KEY
  {
  }

  lemma PathStart(h: seq<HashNumber>, keyHash: HashNumber, log2: nat)
    requires ValidLog2(log2) && |h| == Pow2(log2)
    ensures PathMarked(h, keyHash, log2, 0) && PathLive(h, keyHash, log2, 0)
    ensures Reachable(h, keyHash, log2, Hash1(keyHash, log2))
    ensures Marks(h, h)
  {
    assert Probe(keyHash, log2, 0) == Hash1(keyHash, log2);
    assert PathMarked(h, keyHash, log2, 0);
  }

  /** One probe step of a search that marks the live slot it leaves. */
  lemma MarkStep(h: seq<HashNumber>, before: seq<HashNumber>, keyHash: HashNumber, log2: nat, n: nat)
    requires ValidLog2(log2) && |h| == |before| == Pow2(log2)
    requires Marks(h, before) && PathMarked(before, keyHash, log2, n)
    requires IsLiveHash(before[Probe(keyHash, log2, n)])
    ensures var p := Probe(keyHash, log2, n);
            var after := before[p := SetBit(before[p])];
            && Marks(h, after) && PathMarked(after, keyHash, log2, n + 1)
            && Reachable(after, keyHash, log2, Probe(keyHash, log2, n + 1))
  {
    var p := Probe(keyHash, log2, n);
    var after := before[p := SetBit(before[p])];
    MarkSlot(before, p);
    MarksTransitive(h, before, after);
    MarkedPathExtends(before, after, keyHash, log2, n);
  }

  lemma MarkedPathExtends(h: seq<HashNumber>, h': seq<HashNumber>, keyHash: HashNumber, log2: nat, n: nat)
    requires ValidLog2(log2) && |h| == |h'| == Pow2(log2)
    requires forall i :: 0 <= i < |h| && HasCollision(h[i]) ==> HasCollision(h'[i])
    requires PathMarked(h, keyHash, log2, n) && HasCollision(h'[Probe(keyHash, log2, n)])
    ensures PathMarked(h', keyHash, log2, n + 1)
    ensures Reachable(h', keyHash, log2, Probe(keyHash, log2, n + 1))
  {
    assert PathMarked(h', keyHash, log2, n + 1);
  }

  // ----- inserting and removing

  /** The hash stored for a new entry: a recycled tombstone passes its collision bit on. */
  function StoredHash(old_: HashNumber, keyHash: HashNumber): HashNumber {
    if old_ == REMOVED_KEY then SetBit(keyHash) else keyHash
  }

  lemma InsertKeepsInv<K, V>(h: seq<HashNumber>, e: seq<HashMapEntry<K, V>>, log2: nat, hash: K -> HashNumber,
                             m: map<K, V>, s: nat, key: K, value: V)
    requires Inv(h, e, log2, hash, m)
    requires s < |h| && !IsLiveHash(h[s]) && key !in m
    requires Reachable(h, PrepareHash(hash(key)), log2, s)
    ensures var x := StoredHash(h[s], PrepareHash(hash(key)));
            && Inv(h[s := x], e[s := HashMapEntry(key, value)], log2, hash, m[key := value])
            && Count(Tombstone, h[s := x]) == Count(Tombstone, h) - if h[s] == REMOVED_KEY then 1 else 0
  {
    hide Represents, Reachable, AllReachable, StripBit, IsLiveHash, StoredHash, HasCollision;
    var keyHash := PrepareHash(hash(key));
    var x := StoredHash(h[s], keyHash);
    InsertSlot(h, log2, s, keyHash);
    InsertRepresents(h, e, hash, m, s, x, key, value);
  }

  lemma InsertSlot(h: seq<HashNumber>, log2: nat, s: nat, keyHash: HashNumber)
    requires ValidLog2(log2) && |h| == Pow2(log2)
    requires AllReachable(h, log2)
    requires s < |h| && !IsLiveHash(h[s]) && IsLiveHash(keyHash) && !HasCollision(keyHash)
    requires Reachable(h, keyHash, log2, s)
    ensures var x := StoredHash(h[s], keyHash);
            && IsLiveHash(x) && StripBit(x) == keyHash
            && AllReachable(h[s := x], log2)
            && Count(Live, h[s := x]) == Count(Live, h) + 1
            && Count(Tombstone, h[s := x]) == Count(Tombstone, h) - if h[s] == REMOVED_KEY then 1 else 0
  {
    var x := StoredHash(h[s], keyHash);
    StoredHashIsLive(h[s], keyHash);
    CountUpdate(Live, h, s, x);
    CountUpdate(Tombstone, h, s, x);
    ReachableGrows(h, h[s := x], keyHash, log2, s);
    PathsSurvive(h, h[s := x], log2, s);
  }

  lemma StoredHashCases(old_: HashNumber, keyHash: HashNumber)
    ensures old_ == REMOVED_KEY ==> StoredHash(old_, keyHash) == SetBit(keyHash)
    ensures old_ != REMOVED_KEY ==> StoredHash(old_, keyHash) == keyHash
  {
  }

  lemma StoredHashIsLive(old_: HashNumber, keyHash: HashNumber)
    requires !IsLiveHash(old_) && IsLiveHash(keyHash) && !HasCollision(keyHash)
    ensures IsLiveHash(StoredHash(old_, keyHash)) && StripBit(StoredHash(old_, keyHash)) == keyHash
    ensures HasCollision(old_) ==> HasCollision(StoredHash(old_, keyHash))
  {
  }

  lemma InsertRepresents<K, V>(h: seq<HashNumber>, e: seq<HashMapEntry<K, V>>, hash: K -> HashNumber,
                               m: map<K, V>, s: nat, x: HashNumber, key: K, value: V)
    requires Represents(h, e, hash, m)
    requires s < |h| && !IsLiveHash(h[s]) && key !in m
    requires IsLiveHash(x) && StripBit(x) == PrepareHash(hash(key))
    ensures Represents(h[s := x], e[s := HashMapEntry(key, value)], hash, m[key := value])
  {
    var h', e', m' := h[s := x], e[s := HashMapEntry(key, value)], m[key := value];
    forall k | k in m'
      ensures Stored(h', e', k)
    {
      if k == key {
        assert e'[s].key == key;
      } else {
        assert Stored(h, e, k);
        var i :| 0 <= i < |h| && IsLiveHash(h[i]) && e[i].key == k;
        assert e'[i].key == k && IsLiveHash(h'[i]);
      }
    }
  }

  /** What remove() leaves behind: a tombstone only where some probe path may run through. */
  function VacatedHash(old_: HashNumber): HashNumber {
    if HasCollision(old_) then REMOVED_KEY else FREE_KEY
  }

  lemma VacatedCases(old_: HashNumber)
    ensures HasCollision(old_) ==> VacatedHash(old_) == REMOVED_KEY
    ensures !HasCollision(old_) ==> VacatedHash(old_) == FREE_KEY
  {
  }

  lemma RemoveKeepsInv<K, V>(h: seq<HashNumber>, e: seq<HashMapEntry<K, V>>, log2: nat, hash: K -> HashNumber,
                             m: map<K, V>, s: nat)
    requires Inv(h, e, log2, hash, m)
    requires s < |h| && IsLiveHash(h[s])
    ensures var h' := h[s := VacatedHash(h[s])];
            && Inv(h', e, log2, hash, m - {e[s].key})
            && Count(Tombstone, h') == Count(Tombstone, h) + if HasCollision(h[s]) then 1 else 0
  {
    hide Represents, StripBit, PrepareHash;
    var x := VacatedHash(h[s]);
    CountUpdate(Live, h, s, x);
    CountUpdate(Tombstone, h, s, x);
    RemoveRepresents(h, e, hash, m, s, x);
    PathsSurvive(h, h[s := x], log2, s);
  }

  lemma RemoveSize<K, V>(m: map<K, V>, k: K)
    requires k in m
    ensures |m - {k}| == |m| - 1
  {
    var m' := m - {k};
    assert m'.Keys == m.Keys - {k};
    assert |m'.Keys| == |m.Keys| - 1;
  }

  lemma RemoveAbsent<K, V>(m: map<K, V>, k: K)
    requires k !in m
    ensures m - {k} == m
  {
  }

  lemma RemoveRepresents<K, V>(h: seq<HashNumber>, e: seq<HashMapEntry<K, V>>, hash: K -> HashNumber,
                               m: map<K, V>, s: nat, x: HashNumber)
    requires Represents(h, e, hash, m)
    requires s < |h| && IsLiveHash(h[s]) && !IsLiveHash(x)
    ensures Represents(h[s := x], e, hash, m - {e[s].key})
    ensures |m - {e[s].key}| == |m| - 1
  {
    hide StripBit, PrepareHash, IsLiveHash;
    var h', m' := h[s := x], m - {e[s].key};
    RemoveSize(m, e[s].key);
    forall k | k in m'
      ensures Stored(h', e, k)
    {
      assert Stored(h, e, k);
      var i :| 0 <= i < |h| && IsLiveHash(h[i]) && e[i].key == k;
      assert h'[i] == h[i];
    }
  }

  lemma OverwriteKeepsInv<K, V>(h: seq<HashNumber>, e: seq<HashMapEntry<K, V>>, log2: nat, hash: K -> HashNumber,
                                m: map<K, V>, s: nat, value: V)
    requires Inv(h, e, log2, hash, m)
    requires s < |h| && IsLiveHash(h[s])
    ensures Inv(h, e[s := HashMapEntry(e[s].key, value)], log2, hash, m[e[s].key := value])
  {
    hide AllReachable, Represents, Count;
    OverwriteRepresents(h, e, hash, m, s, value);
  }

  lemma OverwriteSize<K, V>(m: map<K, V>, k: K, v: V)
    requires k in m
    ensures |m[k := v]| == |m|
  {
    var m' := m[k := v];
    assert m'.Keys == m.Keys;
    assert |m'.Keys| == |m'| && |m.Keys| == |m|;
  }

  lemma OverwriteRepresents<K, V>(h: seq<HashNumber>, e: seq<HashMapEntry<K, V>>, hash: K -> HashNumber,
                                  m: map<K, V>, s: nat, value: V)
    requires Represents(h, e, hash, m)
    requires s < |h| && IsLiveHash(h[s])
    ensures Represents(h, e[s := HashMapEntry(e[s].key, value)], hash, m[e[s].key := value])
    ensures |m[e[s].key := value]| == |m|
  {
    hide PrepareHash, StripBit, IsLiveHash;
    var e', m' := e[s := HashMapEntry(e[s].key, value)], m[e[s].key := value];
    OverwriteSize(m, e[s].key, value);
    assert forall i :: 0 <= i < |e| ==> e'[i].key == e[i].key;
    forall k | k in m'
      ensures Stored(h, e', k)
    {
      assert Stored(h, e, k);
      var i :| 0 <= i < |h| && IsLiveHash(h[i]) && e[i].key == k;
      assert e'[i].key == k;
    }
  }

  // ----- an empty table

  lemma EmptyInv<K, V>(h: seq<HashNumber>, e: seq<HashMapEntry<K, V>>, log2: nat, hash: K -> HashNumber)
    requires ValidLog2(log2) && |h| == |e| == Pow2(log2)
    requires forall i :: 0 <= i < |h| ==> h[i] == FREE_KEY
    ensures Inv(h, e, log2, hash, map[])
    ensures Count(Tombstone, h) == 0
  {
    CountZero(Live, h);
    CountZero(Tombstone, h);
  }
}
