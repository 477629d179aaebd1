# Verified models of SpiderMonkey 128's core data structures

This project models, in Dafny 4.11, the self-contained algorithms a SpiderMonkey 128 port for the Switch rests on,
and proves what they are for. Code that works by changing state is modelled by classes and methods proved against
specification functions; code made of expressions is modelled by functions and lemmas.

- **`Basics`, `Wrappers`**: sequences without repetition, powers of two, optional values.
- **`HashArith`, `HashSlots`, `HashRehash`, `HashTables`** (mfbt/HashTable.h): open addressing with double hashing. The
  central invariant is that every slot before a live entry on its probe path carries the collision bit or is a
  tombstone. The table refines a finite map over every run of calls (`HashTables.Run`), although every allocation may
  fail; a traversal that removes what it meets is one of them. Allocation, simulated memory exhaustion and failing hash
  functions are boolean parameters, so each method states exactly when it succeeds.
- **`MpscWords`, `MpscQueues`, `MpscCalls`** (mfbt/MPSCQueue.h): a state machine of small steps (load, compare-and-exchange
  success, real and spurious failure, the two halves of a data copy) for any number of threads. Slot ids are conserved,
  the crash is unreachable, and with one consumer the queue is first in, first out. A call that comes back empty-handed
  saw its word empty, and a call that nothing interferes with does its whole work.
- **`TarjanGraph`, `Tarjans`** (config/check_spidermonkey_style.py): Tarjan's algorithm with reachability defined by
  closed sets and shown to be the existence of paths.
- **`ArenaRegions`, `ArenaRuns`, `Arenas`** (switch_virtmem.c): a first-fit allocator over a fixed array and its
  restarting coalescing loop, for every `size_t` length. `ArenaRuns` says what each call does to the state and proves
  what holds over whole runs; the methods of `Arenas` on the array are proved to be those steps. memalign's answers are
  parameters.
- **`BufferSegments`, `BufferLists`** (mfbt/BufferList.h): segments as byte sequences, the iterator as segment number
  and offsets. A budget says how many more allocations succeed.
- **`JsonText`, `JsonRoundTrip`, `JsonLayout`, `JsonWriters`** (mfbt/JSONWriter.h): the writer's flag stacks against a
  recursive specification of the text, a parser for section 2 of RFC 4627 that reads it back, and the layout: what
  stands on one line and how far the rest is indented.
- **`SafeIteration`, `DoublyLinkedLists`** (mfbt/DoublyLinkedList.h): linked elements and the stack of iterators that
  stay valid while the list changes; what an iterator visits, over every run of calls on the concrete list
  (`DoublyLinkedLists.Run`).
- **`LinkedLists`** (mfbt/LinkedList.h): circular lists as rings of nodes through a sentinel, splicing and moving.
- **`StyleLines`, `StyleTrees`, `StyleSort`, `StyleCheck`** (config/check_spidermonkey_style.py): reading a file into its
  preprocessor tree, which gives back the lines it was read from, and printing it; sorting includes within batches; when
  a sorted file passes the order check. All say exactly when they fail.
- **`CheckedInts`** (mfbt/CheckedInt.h): the sign-bit and division tests of every width and sign are exact, and so are
  whole expressions.

Where a promise fails, the model says exactly when:

- `mmap` rounds lengths in `size_t`. Both roundings are right for exactly the lengths up to SIZE_MAX + 1 - 2^21
  (`ArenaRegions.RoundingIsSafeIff`). From there up to SIZE_MAX - 4095 the block size comes out as zero: mmap always
  answers ENOMEM, and whatever memalign answered stays on the list as empty regions (`ArenaRuns.BlockWrapsFails`).
  Beyond SIZE_MAX - 4095 the length itself rounds to zero, and exactly then the first fit is taken without reserving a
  byte (`ArenaRuns.ReservesNothingIff`, `ArenaRuns.MapsWithoutReserving`). `Arenas.Arena.Mmap` covers every length.
- `popFront` of the safe list does not adjust an iterator that would move to the head next. The list and all its
  iterators are consistent afterwards if and only if there is no such iterator
  (`DoublyLinkedLists.SafeDoublyLinkedList.PopFront`); `DoublyLinkedLists.StrandedIterator` makes one.
- Reading and printing a file reproduces it if and only if every include line ends in a newline, which only the last
  line of a file can lack (`StyleTrees.RoundTrip`, `StyleTrees.ReadUnendedInclude`).
- Sorting includes raises a TypeError if and only if some batch is out of order, not exempt, and holds two includes with
  the same section and lower-case name, because tuples with equal keys are compared by the include objects themselves
  (`StyleSort.SortingSucceeds`, `StyleCheck.SameKeysRaise`).
- A sorted file still fails the order check if and only if includes on two sides of other code do not fit each other,
  or a batch that is left alone does not pass as it stands (`StyleCheck.SortedPassesIff`,
  `StyleCheck.CodeKeepsDisorder`).
- An iterator over a BufferList is done at once, whatever follows, if the first segment is empty. The list keeps the
  iterators sound if and only if no segment lacks capacity and none is appended beside an empty one
  (`BufferLists.BufferList.AllocateSegment`, `WriteBytesZeroCopy`, `CopyFrom`); two calls that break them are
  `BufferLists.EmptySegmentHidesBytes`.
- `compact` passes `bestCapacity` more than the limit its debug assertion states if and only if the table holds more
  than MAX_INIT entries. The capacity is then 2^30, `bestCapacity` still computes it, and compact changes nothing
  (`HashTables.HashTable.CompactBeyondMaxInit`); `HashTables.FillTable` builds such tables.

`dafny verify dfyconfig.toml` checks the whole project.

## Model

| member | source | states |
|---|---|---|
| `HashArith.PrepareHash` | mozjs-128.13.0/mfbt/HashTable.h:1650-1658 | a prepared hash is live (at least 2) and even, so it is never confused with a free slot, a tombstone or a collision mark |
| `HashArith.PreparedBits` | mozjs-128.13.0/mfbt/HashTable.h:1650-1658 | all bits of the golden-ratio product but the last survive, except for the two products that would be sentinels |
| `HashArith.Hash2` | mozjs-128.13.0/mfbt/HashTable.h:1737-1742 | the probe stride is odd and below the capacity |
| `HashArith.ProbeBits` | mozjs-128.13.0/mfbt/HashTable.h:1722-1742 | the first probe is the top bits of the hash, the stride the next ones made odd, zeros following where too few are left |
| `HashArith.ProbeClosedForm` | mozjs-128.13.0/mfbt/HashTable.h:1737-1747 | n probe steps subtract n strides modulo the capacity, although each step wraps at 32 bits first |
| `HashArith.OddStrideReaches` | mozjs-128.13.0/mfbt/HashTable.h:1737-1747 | an odd stride is invertible modulo a power of two: every residue is one of its multiples |
| `HashArith.ProbeCovers` | mozjs-128.13.0/mfbt/HashTable.h:1790-1809 | every slot is visited within one capacity's worth of probe steps |
| `HashArith.BestCapacityFits` | mozjs-128.13.0/mfbt/HashTable.h:1613-1635 | bestCapacity is the least legal power of two that holds the entries at a load of at most 3/4, 32-bit arithmetic included |
| `HashArith.CapacityFacts` | mozjs-128.13.0/mfbt/HashTable.h:1596-1611 | capacities are multiples of four up to 2^30; halving and doubling them gives capacities again, with the matching shift |
| `HashSlots.MarksKeepInv` | mozjs-128.13.0/mfbt/HashTable.h:1186-1189 | switching collision bits on preserves the table's meaning, every reachable path and the tombstone count |
| `HashSlots.HitComesFirst` | mozjs-128.13.0/mfbt/HashTable.h:1764-1810 | a stored key is met on its probe path before any free slot |
| `HashSlots.MissMeansAbsent` | mozjs-128.13.0/mfbt/HashTable.h:1764-1810 | a search that meets no match before a free slot proves the key absent |
| `HashSlots.FreeSlotOnPath` | mozjs-128.13.0/mfbt/HashTable.h:1790-1809 | while entries and tombstones do not fill the table, every probe path meets a free slot within one capacity: lookups terminate |
| `HashSlots.SlotOnPath` | mozjs-128.13.0/mfbt/HashTable.h:1833-1842 | the same for any kind of slot that does not fill the table: the search for a non-live slot terminates |
| `HashSlots.FirstNonLiveUnique` | mozjs-128.13.0/mfbt/HashTable.h:1784-1842 | a path has one first non-live slot: the first tombstone, or the free slot that ends it if there is none |
| `HashSlots.FirstNonLiveMeets` | mozjs-128.13.0/mfbt/HashTable.h:1784-1842 | in stored hashes: every slot before it on the path holds an entry, and it holds none |
| `HashSlots.SearchMiss` | mozjs-128.13.0/mfbt/HashTable.h:1784-1809 | after a missed lookup-for-add the table still represents the same map, and the slot returned (first tombstone, else the free slot) is reachable from the key's home through marked slots |
| `HashSlots.SearchHit` | mozjs-128.13.0/mfbt/HashTable.h:1784-1809 | after a successful lookup-for-add the table still represents the same map and the slot holds the key's entry |
| `HashSlots.InsertKeepsInv` | mozjs-128.13.0/mfbt/HashTable.h:2155-2162 | storing a new entry in a reachable non-live slot, passing a recycled tombstone's collision bit on, adds exactly that pair and keeps every path |
| `HashSlots.RemoveKeepsInv` | mozjs-128.13.0/mfbt/HashTable.h:1920-1933 | removing an entry deletes exactly its key; leaving a tombstone precisely when the collision bit was set keeps every other path intact |
| `HashSlots.OverwriteKeepsInv` | mozjs-128.13.0/mfbt/HashTable.h:256-266 | replacing the value of a found entry updates exactly that key |
| `HashSlots.EmptyInv` | mozjs-128.13.0/mfbt/HashTable.h:1668-1686 | freshly created storage represents the empty map |
| `HashRehash.SwapRepresents` | mozjs-128.13.0/mfbt/HashTable.h:1968-1973 | the swap of the in-place rehash exchanges two slots without changing the map |
| `HashRehash.SwapPlaces` | mozjs-128.13.0/mfbt/HashTable.h:1968-1977 | the swapped-in entry is reachable through settled slots only, and entries settled earlier stay reachable |
| `HashRehash.SwapCounts` | mozjs-128.13.0/mfbt/HashTable.h:1968-1973 | each swap settles exactly one more live entry: the termination measure of the rehash |
| `HashRehash.AllPlaced` | mozjs-128.13.0/mfbt/HashTable.h:1952-1985 | once the scan is through, every live entry is settled and reachable |
| `HashRehash.PairsOfMap` | mozjs-128.13.0/mfbt/HashTable.h:1952-1985 | two slot arrays representing the same map hold the same set of (hash, key, value) pairs |
| `HashTables.HashTable.LookupSlot` | mozjs-128.13.0/mfbt/HashTable.h:1764-1810 | lookup finds a live slot exactly when the map has the key, with its entry; otherwise a free slot; it terminates on any table with a free slot |
| `HashTables.HashTable.LookupSlotForAdd` | mozjs-128.13.0/mfbt/HashTable.h:1764-1810 | the marking lookup keeps the represented map; a miss returns the first non-live slot of the path, so a tombstone is recycled before the free slot is used |
| `HashTables.HashTable.PassSlot` | mozjs-128.13.0/mfbt/HashTable.h:1791-1797 | one step of it: until a tombstone has been met, live slots are marked and a tombstone is remembered; after that nothing changes |
| `HashTables.HashTable.FindNonLiveSlot` | mozjs-128.13.0/mfbt/HashTable.h:1815-1843 | marks the path it walks and returns its first slot that is not live, reachable through marked slots |
| `HashTables.HashTable.MoveLiveEntries` | mozjs-128.13.0/mfbt/HashTable.h:1875-1884 | copying into new storage moves exactly the live entries, leaving no tombstones |
| `HashTables.HashTable.ChangeTableSize` | mozjs-128.13.0/mfbt/HashTable.h:1847-1889 | the map never changes; it succeeds exactly within the capacity limit when allocation succeeds; on failure nothing at all changes |
| `HashTables.HashTable.UnsetAllCollisions` | mozjs-128.13.0/mfbt/HashTable.h:1955-1955 | clears every slot's collision bit, which also turns tombstones into free slots |
| `HashTables.HashTable.FindUnsettledSlot` | mozjs-128.13.0/mfbt/HashTable.h:1964-1977 | walks past settled slots to an unsettled one on the entry's path; terminates |
| `HashTables.HashTable.SwapInto` | mozjs-128.13.0/mfbt/HashTable.h:1968-1973 | one swap keeps the rehash invariant and lowers the number of unsettled entries by one |
| `HashTables.HashTable.RehashTableInPlace` | mozjs-128.13.0/mfbt/HashTable.h:1952-1985 | terminates, keeps exactly the same live pairs, leaves no tombstones and every entry reachable from its home |
| `HashTables.HashTable.RehashIfOverloaded` | mozjs-128.13.0/mfbt/HashTable.h:1891-1912 | rehashes exactly when there is no storage or entries and tombstones fill three quarters of it: to the same capacity if a quarter is tombstones, else to double, within 2^30; no change otherwise or on failure |
| `HashTables.HashTable.InfallibleRehashIfOverloaded` | mozjs-128.13.0/mfbt/HashTable.h:1914-1918 | restores the load bound whatever the allocator answers, keeps the map, and grows exactly when full three quarters hold few tombstones and allocation succeeds |
| `HashTables.HashTable.ShrinkIfUnderloaded` | mozjs-128.13.0/mfbt/HashTable.h:1935-1945 | halves the capacity exactly when above minimum, at most a quarter full and allocation succeeds; keeps the map |
| `HashTables.HashTable.Compact` | mozjs-128.13.0/mfbt/HashTable.h:2020-2037 | keeps the map; frees the storage of an empty table, otherwise reaches bestCapacity exactly when allocation succeeds and else keeps its capacity |
| `HashTables.HashTable.CompactBeyondMaxInit` | mozjs-128.13.0/mfbt/HashTable.h:2020-2037 | with more entries than bestCapacity asserts as its limit the capacity is already the largest, so that compact leaves it as it is |
| `HashTables.FillTable` | mozjs-128.13.0/mfbt/HashTable.h:256-266 | and there is such a table: one with any number of entries up to the largest can be built by put alone |
| `HashTables.HashTable.constructor` | mozjs-128.13.0/mfbt/HashTable.h:1705-1718 | an empty, valid table with the capacity bestCapacity asks for |
| `HashTables.HashTable.Lookup` | mozjs-128.13.0/mfbt/HashTable.h:2088-2105 | find succeeds exactly when the key has a hash already and the map has the key; it touches nothing |
| `HashTables.HashTable.LookupForAdd` | mozjs-128.13.0/mfbt/HashTable.h:2107-2125 | the map is unchanged; the pointer is found exactly when the key is present, else names the first slot on the path that holds no entry |
| `HashTables.HashTable.SetLive` | mozjs-128.13.0/mfbt/HashTable.h:2178-2179 | the new entry is in the map, the counts follow |
| `HashTables.HashTable.PutNewInfallibleInternal` | mozjs-128.13.0/mfbt/HashTable.h:1990-2005 | adds exactly the new pair; one entry more, and one tombstone fewer exactly if the first free place on the path was one |
| `HashTables.HashTable.PutNew` | mozjs-128.13.0/mfbt/HashTable.h:2201-2217 | below three quarters of the storage the allocator is not asked: hashing and the simulated-memory check decide; at three quarters it succeeds exactly if allocation does, with the same capacity if a quarter is tombstones, else double, within 2^30; nothing changes on failure |
| `HashTables.HashTable.Add` | mozjs-128.13.0/mfbt/HashTable.h:2128-2186 | a recycled tombstone or a free slot below three quarters needs only simulated memory; otherwise success and the new capacity are those of a rehash; nothing changes on failure |
| `HashTables.HashTable.RemoveSlot` | mozjs-128.13.0/mfbt/HashTable.h:1920-1933 | removes exactly that key, leaving a tombstone exactly when the slot had its collision bit set; the counts follow |
| `HashTables.HashTable.Remove` | mozjs-128.13.0/mfbt/HashTable.h:2248-2255 | removes exactly that key; the table then shrinks exactly when it is underloaded and allocation succeeds |
| `HashTables.HashTable.RekeyWithoutRehash` | mozjs-128.13.0/mfbt/HashTable.h:2257-2267 | the old key's value moves to the new key; the entry count is unchanged |
| `HashTables.HashTable.RekeyAndMaybeRehash` | mozjs-128.13.0/mfbt/HashTable.h:2269-2272 | the same, and the load bound holds again |
| `HashTables.HashTable.Reserve` | mozjs-128.13.0/mfbt/HashTable.h:2044-2062 | the exact success condition; the capacity becomes the best one exactly if it was smaller, and then has room for the requested number of entries at 3/4 load |
| `HashTables.HashTable.Clear` | mozjs-128.13.0/mfbt/HashTable.h:2008-2015 | the empty map without tombstones |
| `HashTables.HashTable.ClearAndCompact` | mozjs-128.13.0/mfbt/HashTable.h:2039-2042 | the empty map without storage |
| `HashTables.HashTable.PutNewInfallible` | mozjs-128.13.0/mfbt/HashTable.h:2191-2196 | adds the pair; the load bound holds afterwards when the sum was below 3/4 |
| `HashTables.HashTable.RelookupOrAdd` | mozjs-128.13.0/mfbt/HashTable.h:2222-2246 | a key already present is found and nothing changes; otherwise the pair is added exactly when hashing, simulated memory and a rehash at three quarters allow it, with the capacity that follows |
| `HashTables.HashTable.Put` | mozjs-128.13.0/mfbt/HashTable.h:256-266 | the key maps to the value on success, unchanged on failure; when it succeeds for a new key, and with which capacity, in figures of entries, tombstones and slots |
| `HashTables.HashTable.Overwrite` | mozjs-128.13.0/mfbt/HashTable.h:259-263 | assigning through a found pointer updates exactly that key |
| `HashTables.HashTable.RemoveKey` | mozjs-128.13.0/mfbt/HashTable.h:358-362 | removes the key if it is present and has a hash already |
| `HashTables.HashTable.RekeyAs` | mozjs-128.13.0/mfbt/HashTable.h:385-392 | reports whether the old key was present and then moves its value, else changes nothing |
| `HashTables.ModIterator.constructor` | mozjs-128.13.0/mfbt/HashTable.h:1372-1386 | stands at the first live slot: everything before it is not live |
| `HashTables.ModIterator.Next` | mozjs-128.13.0/mfbt/HashTable.h:1362-1367 | moves to the next live slot, skipping no live one |
| `HashTables.ModIterator.Remove` | mozjs-128.13.0/mfbt/HashTable.h:1455-1462 | removes exactly the current key, keeping the traversal valid |
| `HashTables.ModIterator.Rekey` | mozjs-128.13.0/mfbt/HashTable.h:1475-1484 | moves the value to a new key in mid-traversal; the load bound may be exceeded until the end, the count bound not |
| `HashTables.ModIterator.Finish` | mozjs-128.13.0/mfbt/HashTable.h:1489-1498 | the destructor restores the load bound whatever the allocator answers, without changing the map; after removals the capacity is the best one exactly as compact allows |
| `HashTables.RemoveAll` | mozjs-128.13.0/mfbt/HashTable.h:1362-1498 | a traversal that removes the entries it chooses meets every entry exactly once, and removes exactly those |
| `HashTables.Perform` | mozjs-128.13.0/mfbt/HashTable.h:142-420 | one public call, or a whole removing traversal, changes the table exactly as it would a finite map; what it reports is told exactly by the table before it, for additions in figures of entries, tombstones and capacity |
| `HashTables.Run` | mozjs-128.13.0/mfbt/HashTable.h:142-420 | over every run of such calls, any allocation failing, the table is valid and refines a finite map |
| `MpscWords.GetSet` | mozjs-128.13.0/mfbt/MPSCQueue.h:204-212 | writing a nibble changes that nibble only |
| `MpscWords.HoldsUnique` | mozjs-128.13.0/mfbt/MPSCQueue.h:214-282 | a gap-free word spells exactly one queue of ids |
| `MpscWords.WordOfQueue` | mozjs-128.13.0/mfbt/MPSCQueue.h:271-273 | a queue is spelled by exactly one word, so a whole-word compare-and-exchange cannot be misled by stale reads or ABA |
| `MpscWords.PopFront` | mozjs-128.13.0/mfbt/MPSCQueue.h:297-327 | the low nibble is the front id, zero exactly when empty, and the shift removes it |
| `MpscWords.PushBack` | mozjs-128.13.0/mfbt/MPSCQueue.h:253-273 | writing an id over the first zero nibble appends it |
| `MpscWords.FindEmpty` | mozjs-128.13.0/mfbt/MPSCQueue.h:238-245 | on a gap-free word the scan returns the queue's length, or nothing when the first capacity nibbles are full |
| `MpscQueues.BuildFree` | mozjs-128.13.0/mfbt/MPSCQueue.h:98-103 | the constructor's loop fills the free word with 1..capacity in order |
| `MpscQueues.AppendId` | mozjs-128.13.0/mfbt/MPSCQueue.h:233-282 | MarkSlot with an id in hand always finds room and appends it |
| `MpscQueues.UnmarkKeepsInv` | mozjs-128.13.0/mfbt/MPSCQueue.h:297-331 | UnmarkSlot's step, including spurious and real failures, keeps every id in one place |
| `MpscQueues.MarkKeepsInv` | mozjs-128.13.0/mfbt/MPSCQueue.h:233-282 | MarkSlot's step, including stale words, keeps every id in one place and never crashes |
| `MpscQueues.CopyKeepsInv` | mozjs-128.13.0/mfbt/MPSCQueue.h:125-159 | copying in or out keeps the invariant and touches only the cell of the id in hand, neither word and no other thread |
| `MpscQueues.StepKeepsInv` | mozjs-128.13.0/mfbt/MPSCQueue.h:125-331 | every step of every thread keeps the whole invariant |
| `MpscQueues.StepKeepsFifo` | mozjs-128.13.0/mfbt/MPSCQueue.h:125-331 | every step keeps: committed values are, in order, those returned, the one in the consumer's hands, those waiting |
| `MpscQueues.SlotsNeverLost` | mozjs-128.13.0/mfbt/MPSCQueue.h:98-331 | in every interleaving of any number of threads: both words gap-free, each id in exactly one place, the crash unreachable |
| `MpscQueues.ReceivedIsPrefixOfSent` | mozjs-128.13.0/mfbt/MPSCQueue.h:125-331 | with one consumer the values returned are a prefix of the values in commit order: none lost, duplicated, reordered or torn |
| `MpscCalls.GoTakesFront` | mozjs-128.13.0/mfbt/MPSCQueue.h:297-327 | a word with slots in it, unchanged since it was read, gives up exactly its front id |
| `MpscCalls.GoAppends` | mozjs-128.13.0/mfbt/MPSCQueue.h:233-282 | a word unchanged since it was read takes the id in hand at its end, and the value enters its log |
| `MpscCalls.StepMoves` | mozjs-128.13.0/mfbt/MPSCQueue.h:125-331 | a call ends only by adding to its log or with an empty word in hand; a failed compare-and-exchange reads the word anew and goes on |
| `MpscCalls.HoldsLastLoad` | mozjs-128.13.0/mfbt/MPSCQueue.h:297-330 | over every run, the word a thread works on is the value that word had when the thread last read it, in the same call |
| `MpscCalls.EmptyHandedSawEmpty` | mozjs-128.13.0/mfbt/MPSCQueue.h:297-331 | over every run, a call that ends without sending or receiving saw its word empty: Send the free one, Recv the occupied one |
| `MpscCalls.SendAlone` | mozjs-128.13.0/mfbt/MPSCQueue.h:125-134 | a Send that nothing interferes with stores its value in the front free slot and queues it last, or changes nothing if there is none |
| `MpscCalls.RecvAlone` | mozjs-128.13.0/mfbt/MPSCQueue.h:148-159 | a Recv that nothing interferes with returns the front element whole and frees its slot last, or changes nothing if there is none |
| `TarjanGraph.ReachIsPath` | mozjs-128.13.0/config/check_spidermonkey_style.py:820-822 | reachability in the specification is the existence of a path of edges |
| `TarjanGraph.ExploreVisited` | mozjs-128.13.0/config/check_spidermonkey_style.py:842-844 | an edge to a visited vertex lowers the lowlink only if the vertex is on the stack, and keeps the exploration invariant |
| `TarjanGraph.ExploreChild` | mozjs-128.13.0/config/check_spidermonkey_style.py:838-841 | folding in a child's lowlink keeps the exploration invariant |
| `TarjanGraph.FinishBlack` | mozjs-128.13.0/config/check_spidermonkey_style.py:846-853 | a vertex whose lowlink is below its index stays on the stack and reaches an ancestor there |
| `TarjanGraph.FinishPop` | mozjs-128.13.0/config/check_spidermonkey_style.py:846-851 | a root's stack segment is a strongly connected component, disjoint from and closed over those before it |
| `TarjanGraph.ShareComponent` | mozjs-128.13.0/config/check_spidermonkey_style.py:822-859 | two vertices share a component exactly when each reaches the other |
| `TarjanGraph.OneComponent` | mozjs-128.13.0/config/check_spidermonkey_style.py:822-859 | every vertex is in exactly one component |
| `TarjanGraph.ReachedEarlier` | mozjs-128.13.0/config/check_spidermonkey_style.py:822-859 | a component is emitted only after every component it can reach |
| `TarjanGraph.CycleComponent` | mozjs-128.13.0/config/check_spidermonkey_style.py:810-817 | a component has other than one member exactly when two distinct vertices of it reach each other |
| `Tarjans.Tarjan.StrongConnect` | mozjs-128.13.0/config/check_spidermonkey_style.py:829-853 | the recursion finishes the exploration of v and leaves v's lowlink meaningful to its caller |
| `Tarjans.Tarjan.Run` | mozjs-128.13.0/config/check_spidermonkey_style.py:822-859 | the result is a partition into strongly connected components in reverse topological order |
| `Tarjans.IndexOf` | mozjs-128.13.0/config/check_spidermonkey_style.py:848-848 | the first position of the vertex on the stack |
| `Tarjans.FindCycles` | mozjs-128.13.0/config/check_spidermonkey_style.py:787-817 | a component is reported exactly when it holds a cycle through two distinct headers; nothing is reported exactly when there is no such cycle |
| `ArenaRegions.RoundingIsSafeIff` | switch-shims/switch_virtmem.c:11-31 | both roundings are safe for exactly the lengths up to one block alignment below the word size |
| `ArenaRegions.RoundingCases` | switch-shims/switch_virtmem.c:11-31 | above that the two ranges fail apart: up to SIZE_MAX - 4095 only the block size becomes zero, beyond it the page rounding does |
| `ArenaRegions.BlockSizes` | switch-shims/switch_virtmem.c:18-31 | a block is asked for as 32 MiB, or as the least multiple of 2 MiB that holds a larger need |
| `ArenaRegions.PageSizes` | switch-shims/switch_virtmem.c:10-13 | lengths are rounded up to the least multiple of 4 KiB that holds them |
| `ArenaRegions.MergeKeepsBytes` | switch-shims/switch_virtmem.c:46-54 | merging two regions and moving the last one into the gap preserves the exact set of free bytes |
| `ArenaRegions.MergeKeepsGood` | switch-shims/switch_virtmem.c:46-54 | and keeps regions page-aligned and disjoint, and non-empty if they were |
| `ArenaRegions.BytesCount` | switch-shims/switch_virtmem.c:25-26 | the sizes on a disjoint list sum to the number of free bytes |
| `ArenaRegions.FirstFitFinds` | switch-shims/switch_virtmem.c:80-81 | the first region large enough: every one before it is smaller |
| `ArenaRegions.CarvePlaces` | switch-shims/switch_virtmem.c:83-86 | the front of the region is cut off, or the last region takes its place when nothing is left; all others stay where they are |
| `ArenaRegions.CarveKeepsGood` | switch-shims/switch_virtmem.c:81-87 | taking the front of a region keeps the list sound, and free of adjacent regions if it was |
| `ArenaRegions.CarveTakesRange` | switch-shims/switch_virtmem.c:81-87 | exactly the bytes handed out leave the list |
| `ArenaRegions.RunsFitRegions` | switch-shims/switch_virtmem.c:80-89 | with no two regions adjacent, a contiguous run of free bytes exists exactly when some region is that large |
| `ArenaRuns.TakeFacts` | switch-shims/switch_virtmem.c:80-89 | the first fit moves page-aligned bytes from free to live, and exactly those |
| `ArenaRuns.MmapServes` | switch-shims/switch_virtmem.c:70-101 | up to one block alignment below the word size mmap fails exactly when no region fits and the list is full or memalign fails; otherwise it hands out bytes that were not live, from the list if a region fits |
| `ArenaRuns.BlockWrapsFails` | switch-shims/switch_virtmem.c:29-101 | lengths whose block size is zero always end in ENOMEM, although the list may have room and memalign may answer, and each block it answered stays on the list as an empty region: up to two a call |
| `ArenaRuns.ReservesNothingIff` | switch-shims/switch_virtmem.c:80-89 | over all lengths and all sound non-empty lists: the first fit is taken without reserving a byte exactly when the length exceeds SIZE_MAX - 4095 |
| `ArenaRuns.MapsWithoutReserving` | switch-shims/switch_virtmem.c:70-101 | a call that maps anything, after growing or not, reserves nothing exactly when the length exceeds SIZE_MAX - 4095 |
| `ArenaRuns.ServedIffRunIsFree` | switch-shims/switch_virtmem.c:79-92 | on a coalesced list the list alone serves a request exactly when the free bytes contain a contiguous run of its size |
| `ArenaRuns.MunmapKeepsValid` | switch-shims/switch_virtmem.c:108-121 | returning live bytes keeps the accounts, and a recorded return leaves the list coalesced |
| `ArenaRuns.StepKeepsValid` | switch-shims/switch_virtmem.c:60-121 | every call with any length keeps the accounts, and keeps a coalesced list coalesced unless it grows the arena |
| `ArenaRuns.RunKeepsValid` | switch-shims/switch_virtmem.c:29-121 | over every run of calls: regions aligned and disjoint, bytes grown equal bytes free plus live plus dropped; no empty regions while no length wraps |
| `ArenaRuns.ServedUntilNextGrowth` | switch-shims/switch_virtmem.c:43-121 | in every run, after a recorded munmap and until the arena next grows, mmap is served from the list exactly when a contiguous run is free |
| `Arenas.Arena.MergeInto` | switch-shims/switch_virtmem.c:46-54 | one merge step on the array equals the merge of the specification |
| `Arenas.Arena.MergeAround` | switch-shims/switch_virtmem.c:45-56 | the inner scan leaves position i adjacent to no later region, or has merged it away and asks for a restart |
| `Arenas.Arena.Coalesce` | switch-shims/switch_virtmem.c:43-58 | terminates despite both restart rules; same free bytes, still disjoint, no two regions adjacent |
| `Arenas.Arena.ArenaGrow` | switch-shims/switch_virtmem.c:29-41 | for every need: fails exactly when the list is full or memalign fails; otherwise appends the block, empty if its size wrapped |
| `Arenas.Arena.TakeFirstFit` | switch-shims/switch_virtmem.c:79-92 | takes the front of the first region that fits, nothing of it for size zero, or leaves the list alone |
| `Arenas.Arena.Mmap` | switch-shims/switch_virtmem.c:60-102 | for every length: exactly when it fails, with which errno and what it leaves behind; the bytes handed out are page-aligned and were not live; on a coalesced list served without growing exactly when a run is free |
| `Arenas.Arena.MapInTwoAttempts` | switch-shims/switch_virtmem.c:77-92 | the two attempts compute the answer of the specification |
| `Arenas.Arena.Munmap` | switch-shims/switch_virtmem.c:108-121 | the bytes return to the list, coalesced, or are dropped when it is full; null, MAP_FAILED and zero length do nothing |
| `Arenas.Arena.Accounting` | switch-shims/switch_virtmem.c:29-121 | bytes grown equal bytes free plus live plus dropped |
| `Arenas.Perform` | switch-shims/switch_virtmem.c:60-121 | one call on the array is one step of the specification and answers as it does |
| `Arenas.Replay` | switch-shims/switch_virtmem.c:60-121 | so a sequence of calls on the array is a run of the specification, and the theorems about runs are about the array |
| `Arenas.MergeForward` | switch-shims/switch_virtmem.c:46-49 | continuing the inner scan after a forward merge is justified: earlier positions stay non-adjacent |
| `BufferSegments.PosUnique` | mozjs-128.13.0/mfbt/BufferList.h:173-181 | an offset has one valid iterator state: at a boundary, the start of the next segment |
| `BufferSegments.WalkValid` | mozjs-128.13.0/mfbt/BufferList.h:234-251 | one-byte steps stay valid up to the very end |
| `BufferSegments.WalkMeets` | mozjs-128.13.0/mfbt/BufferList.h:234-302 | any valid state n bytes on is where n one-byte steps lead |
| `BufferSegments.ChunkAt` | mozjs-128.13.0/mfbt/BufferList.h:213-216 | the bytes under the iterator are the contents at its offset |
| `BufferLists.BufferList.AllocateSegment` | mozjs-128.13.0/mfbt/BufferList.h:401-416 | appends a segment and its size, or changes nothing on failure; iterators stay sound exactly when it has capacity and no empty segment comes to stand beside another |
| `BufferLists.BufferList.Init` | mozjs-128.13.0/mfbt/BufferList.h:119-125 | one segment, or nothing on failure |
| `BufferLists.BufferList.AllocateBytes` | mozjs-128.13.0/mfbt/BufferList.h:455-481 | hands out the spare capacity of the last segment first, else a standard segment; earlier bytes are untouched |
| `BufferLists.BufferList.WriteBytes` | mozjs-128.13.0/mfbt/BufferList.h:435-452 | appends the data, succeeding exactly when it fits the room and the segments that can be allocated; on failure the prefix that fitted is there |
| `BufferLists.BufferList.WriteBytesZeroCopy` | mozjs-128.13.0/mfbt/BufferList.h:370-388 | appends the caller's buffer, or nothing when it is empty or the append fails; iterators stay sound exactly when the segment before it is not empty |
| `BufferLists.EmptySegmentHidesBytes` | mozjs-128.13.0/mfbt/BufferList.h:186-191 | after an empty first segment and a zero-copy write a new iterator is done although all the bytes are still to come |
| `BufferLists.BufferList.CopyFrom` | mozjs-128.13.0/mfbt/BufferList.h:127-147 | the copy has the same bytes in one segment, or is empty on failure; the segment has no capacity exactly for an empty source |
| `BufferLists.BufferList.Truncate` | mozjs-128.13.0/mfbt/BufferList.h:558-601 | leaves exactly the prefix before the iterator, returns the number dropped, the iterator is Done |
| `BufferLists.BufferList.ReadBytes` | mozjs-128.13.0/mfbt/BufferList.h:484-502 | the slice at the iterator; succeeds exactly when enough remains; a short read has consumed the rest |
| `BufferLists.BufferList.Borrow` | mozjs-128.13.0/mfbt/BufferList.h:506-528 | a list over exactly the slice at the iterator; succeeds exactly when the slice ends within the segments that the successful appends can reach |
| `BufferLists.BufferList.PassChunk` | mozjs-128.13.0/mfbt/BufferList.h:513-523 | one round of borrowing: the next bytes become a segment of the result and the iterator moves past them |
| `BufferLists.BufferList.MoveFallible` | mozjs-128.13.0/mfbt/BufferList.h:532-555 | all contents move, or on a failed append all stay |
| `BufferLists.BufferList.Clear` | mozjs-128.13.0/mfbt/BufferList.h:160-169 | the empty sequence |
| `BufferLists.IterImpl.constructor` | mozjs-128.13.0/mfbt/BufferList.h:186-191 | an iterator at offset 0; it is done exactly when the first segment is missing or empty, which on a sound list means that there are no bytes |
| `BufferLists.IterImpl.Data` | mozjs-128.13.0/mfbt/BufferList.h:193-198 | the bytes under the iterator are the next bytes of the contents |
| `BufferLists.IterImpl.Advance` | mozjs-128.13.0/mfbt/BufferList.h:234-251 | moves within the segment, stepping over its end unless it is the last |
| `BufferLists.IterImpl.AdvanceAcrossSegments` | mozjs-128.13.0/mfbt/BufferList.h:256-302 | forward scan and backward scan both end in the state of n one-byte steps; false, with the iterator untouched, exactly when fewer bytes remain |
| `BufferLists.CutAt` | mozjs-128.13.0/mfbt/BufferList.h:564-596 | cutting the last kept segment at the iterator leaves the prefix of the contents |
| `JsonRoundTrip.ParseEscaped` | mozjs-128.13.0/mfbt/JSONWriter.h:190-208 | the parser inverts the escaping, whatever follows the closing quotation mark |
| `JsonRoundTrip.HexRoundTrip` | mozjs-128.13.0/mfbt/JSONWriter.h:150-153 | the two hexadecimal digits determine the control character |
| `JsonRoundTrip.ParseRender` | mozjs-128.13.0/mfbt/JSONWriter.h:289-344 | the text of every value, in any style and at any depth, parses to that value and leaves what follows |
| `JsonRoundTrip.DocumentRoundTrip` | mozjs-128.13.0/mfbt/JSONWriter.h:376-387 | the document parses to the same tree in both styles |
| `JsonRoundTrip.SingleLineIsCompact` | mozjs-128.13.0/mfbt/JSONWriter.h:225-231 | a writer built single-line emits no whitespace outside strings, whatever styles are requested |
| `JsonLayout.DecimalIsInteger` | mozjs-128.13.0/mfbt/JSONWriter.h:420-424 | the text printf gives for an integer, of any size and sign, is a number of the grammar |
| `JsonLayout.EscapesWhereNeeded` | mozjs-128.13.0/mfbt/JSONWriter.h:104-153 | only quotation marks, backslashes and control characters are escaped, with two characters wherever there is such an escape |
| `JsonLayout.SingleLineHasNoNewline` | mozjs-128.13.0/mfbt/JSONWriter.h:220-226 | a collection asked for in single-line style has no newline in its text, in any writer, at any depth, whatever is asked for inside it |
| `JsonLayout.StylesAreIgnored` | mozjs-128.13.0/mfbt/JSONWriter.h:220-226 | where newlines are off the requested styles and the depth make no difference to the text |
| `JsonLayout.ArrayItem` | mozjs-128.13.0/mfbt/JSONWriter.h:265-278 | in a multi-line array each item begins after a newline and as many spaces as its depth and the bracket closes after one fewer; otherwise items follow after a comma and, in a multi-line writer, one space |
| `JsonLayout.ObjectMember` | mozjs-128.13.0/mfbt/JSONWriter.h:265-287 | the same for members; the name is followed by a colon and, in a multi-line writer, one space |
| `JsonLayout.EmptyCollections` | mozjs-128.13.0/mfbt/JSONWriter.h:320-344 | an empty collection holds nothing but the newline and indentation of a multi-line one |
| `JsonLayout.PrintedAtDepth` | mozjs-128.13.0/mfbt/JSONWriter.h:320-331 | inside multi-line collections every value is printed with newlines on at the depth of its path |
| `JsonWriters.EscapedString` | mozjs-128.13.0/mfbt/JSONWriter.h:156-212 | two passes, the second into a buffer of exactly the measured length: the escape of the part before the first NUL |
| `JsonWriters.WriteEscape` | mozjs-128.13.0/mfbt/JSONWriter.h:191-208 | one character's escape at a running index |
| `JsonWriters.JSONWriter.constructor` | mozjs-128.13.0/mfbt/JSONWriter.h:347-351 | nothing printed, depth 0, newlines as the style says |
| `JsonWriters.JSONWriter.Indent` | mozjs-128.13.0/mfbt/JSONWriter.h:259-263 | one space per level |
| `JsonWriters.JSONWriter.Separator` | mozjs-128.13.0/mfbt/JSONWriter.h:268-278 | the comma, newline and indentation or space the flags call for |
| `JsonWriters.JSONWriter.PropertyNameAndColon` | mozjs-128.13.0/mfbt/JSONWriter.h:280-287 | the escaped name in quotation marks, a colon, and a space unless single-line |
| `JsonWriters.JSONWriter.Scalar` | mozjs-128.13.0/mfbt/JSONWriter.h:289-297 | separator, optional name, value; the next item needs a comma |
| `JsonWriters.JSONWriter.QuotedScalar` | mozjs-128.13.0/mfbt/JSONWriter.h:299-309 | the same with the value in quotation marks |
| `JsonWriters.JSONWriter.NewVectorEntries` | mozjs-128.13.0/mfbt/JSONWriter.h:311-318 | both stacks are cut or grown to the current depth |
| `JsonWriters.JSONWriter.StartCollection` | mozjs-128.13.0/mfbt/JSONWriter.h:320-331 | opens a collection; newlines are on inside it exactly if they are on around it and the multi-line style is asked for |
| `JsonWriters.JSONWriter.EndCollection` | mozjs-128.13.0/mfbt/JSONWriter.h:334-344 | closes it at the outer indentation |
| `JsonWriters.JSONWriter.Start` | mozjs-128.13.0/mfbt/JSONWriter.h:377-379 | opens the top object |
| `JsonWriters.JSONWriter.End` | mozjs-128.13.0/mfbt/JSONWriter.h:382-387 | closes it, with a final newline unless single-line |
| `JsonWriters.JSONWriter.PrintValue` | mozjs-128.13.0/mfbt/JSONWriter.h:389-540 | the calls for one value print its text and leave the flags of the levels below as they were |
| `JsonWriters.JSONWriter.PrintArray` | mozjs-128.13.0/mfbt/JSONWriter.h:499-518 | the calls for an array print its text |
| `JsonWriters.JSONWriter.PrintObject` | mozjs-128.13.0/mfbt/JSONWriter.h:521-540 | the calls for a nested object print its text |
| `JsonWriters.JSONWriter.PrintItems` | mozjs-128.13.0/mfbt/JSONWriter.h:499-518 | elements in order, separated |
| `JsonWriters.JSONWriter.PrintMembers` | mozjs-128.13.0/mfbt/JSONWriter.h:521-540 | members in order, separated |
| `JsonWriters.PrintDocument` | mozjs-128.13.0/mfbt/JSONWriter.h:376-387 | the whole document is the specified text and parses back to the tree; it is compact for a single-line writer, else ends in a newline, its only one if the top object is single-line |
| `SafeIteration.StepKeepsSuffix` | mozjs-128.13.0/mfbt/DoublyLinkedList.h:512-569 | whatever happens to the list, an iterator's pending elements stay the end of the list |
| `SafeIteration.YieldsListed` | mozjs-128.13.0/mfbt/DoublyLinkedList.h:436-442 | over every run, an iterator yields only elements that are in the list at that moment |
| `SafeIteration.RunConserves` | mozjs-128.13.0/mfbt/DoublyLinkedList.h:512-569 | yielded plus pending elements, less those ever deleted, grow only by what is appended |
| `SafeIteration.EachVisitedOnceInOrder` | mozjs-128.13.0/mfbt/DoublyLinkedList.h:512-569 | over every run, the elements ahead of the iterator and those appended, less those ever deleted, are visited or still pending exactly once and in order |
| `SafeIteration.RunsCompose` | mozjs-128.13.0/mfbt/DoublyLinkedList.h:512-569 | a run may be split anywhere: what is yielded is what the parts yield |
| `DoublyLinkedLists.DoublyLinkedList.constructor` | mozjs-128.13.0/mfbt/DoublyLinkedList.h:133-133 | the empty list |
| `DoublyLinkedLists.DoublyLinkedList.ProbablyIsExact` | mozjs-128.13.0/mfbt/DoublyLinkedList.h:121-130 | for an element of this list or of none, the quick membership test is exact |
| `DoublyLinkedLists.DoublyLinkedList.PushFront` | mozjs-128.13.0/mfbt/DoublyLinkedList.h:204-219 | prepends the element, all links consistent |
| `DoublyLinkedLists.DoublyLinkedList.PopFront` | mozjs-128.13.0/mfbt/DoublyLinkedList.h:225-245 | removes and returns the first element, or null on an empty list |
| `DoublyLinkedLists.DoublyLinkedList.PushBack` | mozjs-128.13.0/mfbt/DoublyLinkedList.h:251-267 | appends the element |
| `DoublyLinkedLists.DoublyLinkedList.PopBack` | mozjs-128.13.0/mfbt/DoublyLinkedList.h:273-293 | removes and returns the last element, or null on an empty list |
| `DoublyLinkedLists.DoublyLinkedList.InsertBefore` | mozjs-128.13.0/mfbt/DoublyLinkedList.h:298-317 | inserts just before the given element, or at the end for a null iterator |
| `DoublyLinkedLists.DoublyLinkedList.Remove` | mozjs-128.13.0/mfbt/DoublyLinkedList.h:322-345 | removes exactly that element and clears its links |
| `DoublyLinkedLists.AdvanceTracks` | mozjs-128.13.0/mfbt/DoublyLinkedList.h:436-442 | stepping an iterator yields the first pending element and leaves the others |
| `DoublyLinkedLists.PushBackTracks` | mozjs-128.13.0/mfbt/DoublyLinkedList.h:514-523 | an exhausted iterator picks up an appended element |
| `DoublyLinkedLists.DeleteTracks` | mozjs-128.13.0/mfbt/DoublyLinkedList.h:553-569 | the adjustment of remove deletes the element from what each iterator has still to visit |
| `DoublyLinkedLists.PopBackTracks` | mozjs-128.13.0/mfbt/DoublyLinkedList.h:538-551 | so does the adjustment of popBack, because the next element always follows the current one |
| `DoublyLinkedLists.SafeIterator.constructor` | mozjs-128.13.0/mfbt/DoublyLinkedList.h:416-425 | a new iterator on top of the stack, with everything after its element pending |
| `DoublyLinkedLists.SafeIterator.Advance` | mozjs-128.13.0/mfbt/DoublyLinkedList.h:436-442 | the next element becomes current |
| `DoublyLinkedLists.SafeIterator.Close` | mozjs-128.13.0/mfbt/DoublyLinkedList.h:426-434 | iterators die in reverse order and the stack of the others is intact |
| `DoublyLinkedLists.SafeDoublyLinkedList.constructor` | mozjs-128.13.0/mfbt/DoublyLinkedList.h:492-492 | an empty list without iterators |
| `DoublyLinkedLists.SafeDoublyLinkedList.Contains` | mozjs-128.13.0/mfbt/DoublyLinkedList.h:495-502 | membership |
| `DoublyLinkedLists.SafeDoublyLinkedList.PushFront` | mozjs-128.13.0/mfbt/DoublyLinkedList.h:512-512 | prepends; no live iterator notices |
| `DoublyLinkedLists.SafeDoublyLinkedList.PushBack` | mozjs-128.13.0/mfbt/DoublyLinkedList.h:514-523 | appends, to the list and to what every live iterator has still to visit |
| `DoublyLinkedLists.SafeDoublyLinkedList.PopFront` | mozjs-128.13.0/mfbt/DoublyLinkedList.h:525-536 | every iterator stays usable exactly when none would have moved to the head next; the others are adjusted correctly in any case |
| `DoublyLinkedLists.SafeDoublyLinkedList.ForgetLast` | mozjs-128.13.0/mfbt/DoublyLinkedList.h:540-548 | the loop of popBack adjusts every live iterator |
| `DoublyLinkedLists.SafeDoublyLinkedList.PopBack` | mozjs-128.13.0/mfbt/DoublyLinkedList.h:538-551 | removes the last element from the list and from every iterator's pending elements |
| `DoublyLinkedLists.SafeDoublyLinkedList.Remove` | mozjs-128.13.0/mfbt/DoublyLinkedList.h:553-569 | removes the element from the list and from every iterator's pending elements; an unlisted element changes nothing |
| `DoublyLinkedLists.StrandedIterator` | mozjs-128.13.0/mfbt/DoublyLinkedList.h:525-536 | such an iterator: made on an empty list, then an element is appended and popped; the iterator still moves to it next |
| `DoublyLinkedLists.Perform` | mozjs-128.13.0/mfbt/DoublyLinkedList.h:436-569 | one call on the concrete list has on any live iterator the effect the abstract run gives it |
| `DoublyLinkedLists.Run` | mozjs-128.13.0/mfbt/DoublyLinkedList.h:436-569 | over every run of calls on the list and steps of a live iterator: it yields only elements listed at that moment, and those ahead of it and appended, less those taken away, once and in order |
| `LinkedLists.Node.constructor` | mozjs-128.13.0/mfbt/LinkedList.h:179-179 | an unlisted node links to itself |
| `LinkedLists.Node.SetNextUnsafe` | mozjs-128.13.0/mfbt/LinkedList.h:315-325 | the new node stands after this one in a consistent ring |
| `LinkedLists.Node.SetPreviousUnsafe` | mozjs-128.13.0/mfbt/LinkedList.h:331-341 | the new node stands before this one in a consistent ring |
| `LinkedLists.Node.Remove` | mozjs-128.13.0/mfbt/LinkedList.h:241-250 | the ring closes over the gap, the node links to itself |
| `LinkedLists.Node.TransferBeforeUnsafe` | mozjs-128.13.0/mfbt/LinkedList.h:346-363 | the slice moves from one ring into the other before this node, both rings consistent in both directions |
| `LinkedLists.Node.AdjustLinkForMove` | mozjs-128.13.0/mfbt/LinkedList.h:369-403 | this node takes the other's place in its ring, or becomes unlisted if the other was |
| `LinkedLists.JoinedRing` | mozjs-128.13.0/mfbt/LinkedList.h:353-358 | the receiving nodes around the moved slice form a ring |
| `LinkedLists.ClosedRing` | mozjs-128.13.0/mfbt/LinkedList.h:360-362 | the giving ring closes over the gap |
| `LinkedLists.RingsMeetNowhere` | mozjs-128.13.0/mfbt/LinkedList.h:664-684 | two lists with their own single sentinels share no node |
| `LinkedLists.LinkedList.constructor` | mozjs-128.13.0/mfbt/LinkedList.h:448-448 | an empty list is its sentinel alone |
| `LinkedLists.LinkedList.InsertFront` | mozjs-128.13.0/mfbt/LinkedList.h:474-477 | prepends |
| `LinkedLists.LinkedList.InsertBack` | mozjs-128.13.0/mfbt/LinkedList.h:482-482 | appends |
| `LinkedLists.LinkedList.ExtendBack` | mozjs-128.13.0/mfbt/LinkedList.h:487-493 | all elements of the other list are appended, the other is empty |
| `LinkedLists.LinkedList.Splice` | mozjs-128.13.0/mfbt/LinkedList.h:498-526 | this[..min(d, len)] + from[s..min(s + n, len)] + the rest, exactly that slice leaves the source, empty and overlong ranges included |
| `LinkedLists.LinkedList.SafeForward` | mozjs-128.13.0/mfbt/LinkedList.h:505-515 | walks at most so many nodes and stops at the sentinel |
| `LinkedLists.LinkedList.TransferSlice` | mozjs-128.13.0/mfbt/LinkedList.h:346-363 | the node transfer as an operation on two lists |
| `LinkedLists.LinkedList.MoveFrom` | mozjs-128.13.0/mfbt/LinkedList.h:450-457 | all elements change lists, the other is empty |
| `LinkedLists.LinkedList.PopFirst` | mozjs-128.13.0/mfbt/LinkedList.h:544-550 | removes and returns the first element, unlisted, or null |
| `LinkedLists.LinkedList.PopLast` | mozjs-128.13.0/mfbt/LinkedList.h:556-562 | removes and returns the last element, unlisted, or null |
| `LinkedLists.LinkedList.RemoveElement` | mozjs-128.13.0/mfbt/LinkedList.h:241-250 | removes exactly that element of the list |
| `LinkedLists.LinkedList.Clear` | mozjs-128.13.0/mfbt/LinkedList.h:582-585 | the list is empty and every former element unlisted |
| `LinkedLists.LinkedList.EmptyIsExact` | mozjs-128.13.0/mfbt/LinkedList.h:567-567 | the emptiness test is exact |
| `LinkedLists.LinkedList.Separate` | mozjs-128.13.0/mfbt/LinkedList.h:498-500 | distinct lists are disjoint, so splicing between them is safe |
| `StyleTrees.AppendOrdinaryLine` | mozjs-128.13.0/config/check_spidermonkey_style.py:504-507 | an ordinary line joins the code node before it, if there is one |
| `StyleTrees.ReadLine` | mozjs-128.13.0/config/check_spidermonkey_style.py:627-676 | one line opens, continues or closes the blocks its kind says, or fails when there is none; the tree can be read back line by line, and includes stand in the innermost open block |
| `StyleTrees.ReadFile` | mozjs-128.13.0/config/check_spidermonkey_style.py:623-680 | fails exactly for unbalanced files, naming the first line at fault; otherwise the tree reads back as the lines of the file, an #else or #elif being a block beside one without an end; block starts, code lines and ends are those of the lines in order, and every include stands in its innermost open block |
| `StyleTrees.ExplainedIsUnbalanced` | mozjs-128.13.0/config/check_spidermonkey_style.py:664-680 | a file with a faulty line or an unclosed block is not balanced |
| `StyleTrees.TreeIsUnique` | mozjs-128.13.0/config/check_spidermonkey_style.py:623-680 | those includes, lines and boundaries determine the tree |
| `StyleTrees.CodeIsMaximal` | mozjs-128.13.0/config/check_spidermonkey_style.py:504-507 | at every depth a stretch of code is one node, and no node is empty |
| `StyleLines.TreeTexts` | mozjs-128.13.0/config/check_spidermonkey_style.py:599-613 | block starts, code lines and ends of a tree, in order of traversal, are those of the lines it reads back as |
| `StyleLines.CloseLines` | mozjs-128.13.0/config/check_spidermonkey_style.py:656-672 | closing a block adds its #endif line, or none if an #else or #elif continues it |
| `StyleLines.SameBlockIff` | mozjs-128.13.0/config/check_spidermonkey_style.py:623-680 | two lines have one innermost block exactly when no #endif, #else or #elif of it and no unclosed #if stands between them |
| `StyleLines.IncludesShareBlock` | mozjs-128.13.0/config/check_spidermonkey_style.py:623-680 | so two includes share a block of the tree exactly under that condition |
| `StyleLines.OwnIsDirect` | mozjs-128.13.0/config/check_spidermonkey_style.py:627-646 | an include carries the number of the block it is a direct kid of |
| `StyleTrees.TreeText` | mozjs-128.13.0/config/check_spidermonkey_style.py:599-613 | a tree prints the text of its parts in order, at any depth |
| `StyleTrees.RoundTrip` | mozjs-128.13.0/config/check_spidermonkey_style.py:599-680 | printing the tree gives the file back exactly when every include line ends in a newline |
| `StyleTrees.UnendedGainsNewline` | mozjs-128.13.0/config/check_spidermonkey_style.py:482-483 | a file that ends in an include line without a newline gains exactly that newline |
| `StyleTrees.ReadUnendedInclude` | mozjs-128.13.0/config/check_spidermonkey_style.py:482-680 | the one-line file that is not reproduced |
| `StyleSort.KeysAreTotal` | mozjs-128.13.0/config/check_spidermonkey_style.py:479-480 | sort keys that differ are ordered one way exactly |
| `StyleSort.LessIff` | mozjs-128.13.0/config/check_spidermonkey_style.py:479-480 | names are compared by their first difference, a prefix coming first |
| `StyleSort.LowerIs` | mozjs-128.13.0/config/check_spidermonkey_style.py:479-480 | lower-casing changes the letters A to Z only, character by character |
| `StyleSort.SectionOfName` | mozjs-128.13.0/config/check_spidermonkey_style.py:448-452 | the name and its brackets decide; system headers are section 2, names without .h section 7 |
| `StyleSort.SectionOfModule` | mozjs-128.13.0/config/check_spidermonkey_style.py:454-461 | the file's own header is section 0, other headers of mozilla/ section 1 |
| `StyleSort.SectionOfPlainName` | mozjs-128.13.0/config/check_spidermonkey_style.py:468-471 | headers without a directory are section 3, inline ones section 5 |
| `StyleSort.SectionOfPath` | mozjs-128.13.0/config/check_spidermonkey_style.py:459-466 | headers with another directory are section 4, inline ones section 6 |
| `StyleSort.OrderedKeys` | mozjs-128.13.0/config/check_spidermonkey_style.py:528-528 | in an ordered batch sections never decrease, nor do the lower-case names within one |
| `StyleSort.ExemptIff` | mozjs-128.13.0/config/check_spidermonkey_style.py:535-539 | exempt are the files whose name contains tests/style/BadIncludes and the batches with one of ten names |
| `StyleSort.LeftAloneIff` | mozjs-128.13.0/config/check_spidermonkey_style.py:534-576 | a batch comes out as it went in exactly if it is exempt or in order |
| `StyleSort.LayoutAt` | mozjs-128.13.0/config/check_spidermonkey_style.py:526-532 | between two includes of a sorted batch there is exactly one blank line if their sections differ and nothing if not |
| `StyleSort.FlushEndsWithTail` | mozjs-128.13.0/config/check_spidermonkey_style.py:553-576 | sorted or not, a batch ends, right after an include, in exactly what stood after its last include |
| `StyleSort.SortIsSorted` | mozjs-128.13.0/config/check_spidermonkey_style.py:528-528 | sorting orders the keys and keeps every include exactly once |
| `StyleSort.SortKeepsOrdered` | mozjs-128.13.0/config/check_spidermonkey_style.py:540-543 | a batch equals its sorted form exactly when it is in order |
| `StyleSort.FlushBatch` | mozjs-128.13.0/config/check_spidermonkey_style.py:553-576 | the loop collects the includes and the end of the last one, and sorts or keeps the batch |
| `StyleSort.FlushRefuses` | mozjs-128.13.0/config/check_spidermonkey_style.py:519-544 | a batch raises exactly when it is to be sorted and two of its includes have one key |
| `StyleSort.SortedBatchLayout` | mozjs-128.13.0/config/check_spidermonkey_style.py:526-573 | a sorted batch is its includes in order, blank lines exactly between sections, then its trailing blank code untouched |
| `StyleSort.SortBlock` | mozjs-128.13.0/config/check_spidermonkey_style.py:578-597 | the loop over the kids computes the sorted block at every depth |
| `StyleSort.SortingKeepsOutline` | mozjs-128.13.0/config/check_spidermonkey_style.py:513-597 | every include stays exactly once in the same gap between the same #if boundaries and non-blank code, and the blank code after the last include of each gap stays |
| `StyleSort.SortingIsIdempotent` | mozjs-128.13.0/config/check_spidermonkey_style.py:513-597 | sorting a sorted tree changes nothing |
| `StyleSort.SortingIsAccepted` | mozjs-128.13.0/config/check_spidermonkey_style.py:744-770 | after sorting, adjacent includes of every batch that is not exempt pass the order check |
| `StyleSort.SortingSucceeds` | mozjs-128.13.0/config/check_spidermonkey_style.py:513-597 | sorting raises exactly when some batch at some depth is out of order, not exempt and holds two includes with one key |
| `StyleCheck.SameKeysRaise` | mozjs-128.13.0/config/check_spidermonkey_style.py:519-538 | a batch that makes sorting raise: b.h, A.h, a.h |
| `StyleCheck.CheckOrder` | mozjs-128.13.0/config/check_spidermonkey_style.py:774-785 | the traversal that compares neighbouring includes of each block, skipping code |
| `StyleCheck.PassesIff` | mozjs-128.13.0/config/check_spidermonkey_style.py:774-785 | it accepts exactly when every two includes of a block with only code between them are in order and every nested block is accepted |
| `StyleCheck.PassBatchFirst` | mozjs-128.13.0/config/check_spidermonkey_style.py:774-785 | for the traversal a batch is the chain of its includes from the kid before it |
| `StyleCheck.SortedEnds` | mozjs-128.13.0/config/check_spidermonkey_style.py:526-573 | the first include of a sorted batch is a least one and the last a greatest |
| `StyleCheck.SortedPassesIff` | mozjs-128.13.0/config/check_spidermonkey_style.py:513-785 | a repaired block passes the whole order check exactly when, across code, the includes of the unsorted block already fit each other, and the batches that are left alone are accepted as they stand |
| `StyleCheck.CodeKeepsDisorder` | mozjs-128.13.0/config/check_spidermonkey_style.py:578-597 | two misordered includes with code between them stay as they are, and rejected |
| `CheckedInts.InRangeExact` | mozjs-128.13.0/mfbt/CheckedInt.h:236-265 | the conversion test equals the target range, for all widths and signs |
| `CheckedInts.SignTest` | mozjs-128.13.0/mfbt/CheckedInt.h:191-205 | complement and sign bit test that two differences are not both set at the top |
| `CheckedInts.AddExact` | mozjs-128.13.0/mfbt/CheckedInt.h:272-291 | the addition test equals the range of the sum |
| `CheckedInts.SubExact` | mozjs-128.13.0/mfbt/CheckedInt.h:293-310 | the subtraction test equals the range of the difference |
| `CheckedInts.MulWideningExact` | mozjs-128.13.0/mfbt/CheckedInt.h:317-324 | multiplying in twice the width is exact |
| `CheckedInts.MulSignedExact` | mozjs-128.13.0/mfbt/CheckedInt.h:326-342 | the four-way test by truncating division is exact |
| `CheckedInts.MulUnsignedExact` | mozjs-128.13.0/mfbt/CheckedInt.h:344-349 | the unsigned test by division is exact |
| `CheckedInts.DivExact` | mozjs-128.13.0/mfbt/CheckedInt.h:361-366 | division is refused exactly for zero and for the one quotient out of range |
| `CheckedInts.ModExact` | mozjs-128.13.0/mfbt/CheckedInt.h:388-401 | remainder is accepted exactly for a non-negative dividend and a positive divisor, and then always fits |
| `CheckedInts.NegateExact` | mozjs-128.13.0/mfbt/CheckedInt.h:406-431 | negation is valid exactly when the negative fits |
| `CheckedInts.ConvertExact` | mozjs-128.13.0/mfbt/CheckedInt.h:533-549 | a conversion is valid exactly when the value fits, and keeps it |
| `CheckedInts.TruncDivRounds` | mozjs-128.13.0/mfbt/CheckedInt.h:677-691 | quotients round toward zero and remainders take the dividend's sign |
| `CheckedInts.BinaryExact` | mozjs-128.13.0/mfbt/CheckedInt.h:677-718 | one operator: the result is valid exactly when both operands are, the operation is allowed and its value fits |
| `CheckedInts.CheckedArithmeticIsExact` | mozjs-128.13.0/mfbt/CheckedInt.h:462-718 | an expression in any mix of types is valid exactly when every subexpression's mathematical value fits and every division is allowed, and then holds that value |

## Left out

- Hash tables: key hashing is a function into 32-bit numbers, lookup keys are keys and match by equality; sets, move
  constructors, reentrancy guards, generation checks, debug counters and byte layout are not modelled.
- HashTables.Run: the calls are those of `HashTables.Op`. putNewInfallible, whose caller vouches for the room, and
  traversals that rekey are not among them; `HashTables.HashTable.PutNewInfallible` and `HashTables.ModIterator.Rekey`
  state them alone.
- MPSCQueue: interleavings are sequentially consistent; memory orders, fences and debug printing are not modelled. A copy of
  an element takes two steps, so torn reads and writes are visible to the model. A null output pointer of Recv and the
  slot index that Send and Recv return are not modelled.
- Tarjans.FindCycles: which components are reported, in the order of emission; sorting them, drawing each one and the
  console output are not modelled, nor is the recursion limit of the interpreter.
- Arenas.Arena.Munmap: stated for ranges that are live and start on a page, with any length; munmap checks neither, and
  other addresses corrupt the list in the original too.
- Arenas.Arena.Mmap: zeroing the memory, the lock and the statistics are not modelled.
- switch_virtmem.c: mprotect, madvise, mremap and thread-attribute functions do nothing or are foreign calls.
- BufferList: segments hold their bytes; raw pointers, freeing and aliasing between a list and its borrowed views are not
  modelled. Iterators are used with the list they came from.
- BufferLists.BufferList.AllocateBytes: the bytes handed out are unspecified until written. It and the operations that use
  iterators are stated for lists on which iterators are sound.
- JSONWriter: doubles; an integer is its decimal text, as printf produces it. Strings are sequences of bytes below 256 or any
  other characters; the parser does not decode \u escapes beyond those the writer emits. Property names are not empty and
  strings contain no NUL, except in `JsonWriters.EscapedString`, which cuts at the first one as the code does.
- DoublyLinkedList: plain iterators, find by value, copying a SafeIterator, and default-constructed end iterators. Elements of
  other lists are never passed in, as the debug assertions demand.
- LinkedList: reference counting hooks, iterators, setNext and setPrevious (the checked forms of the modelled operations),
  AutoCleanLinkedList and the debug-only sanity check. A node's ring is passed to the node operations as a ghost argument.
- StyleTrees.ReadFile: that the tree reads back as the lines is stated for #endif lines that are not empty, as all are.
- Style checker: files, directory walks, regular expressions and console output. Lines come classified; which names count as
  a file's own header is a parameter; lower-casing covers ASCII letters. The blocks of the stack are values appended to their
  parent when closed, where the original appends the shared object when opened.
- StyleSort.SortingIsAccepted: covers the includes of one batch; `StyleCheck.SortedPassesIff` covers whole blocks.
- StyleCheck.CheckOrder: the checks of single includes (deprecated names, wrong paths) and the error messages.
- CheckedInt: the branch that uses compiler overflow builtins, compound assignments, increments and comparison.
- Everything else in the repository: build scripts, wrappers, and the easier containers of mfbt.
