/** Free regions of the switch_virtmem.c arena as pure sequences: which bytes they cover, merging,
    first fit, and the rounding of lengths in 64-bit arithmetic. */
module ArenaRegions {
  import opened Wrappers

  const WORD: nat := 0x1_0000_0000_0000_0000
  const PAGE_SZ: nat := 0x1000
  const ARENA_ALIGN: nat := 0x20_0000
  const BLOCK_SZ: nat := 0x200_0000
  const MAX_FREE: nat := 8192

  datatype Region = Region(start: nat, size: nat) {
    function End(): nat {
      start + size
    }
  }

  // ----- rounding

  /** A length rounded up to whole pages, in size_t arithmetic. */
  function PageUp(n: nat): nat {
    (n + PAGE_SZ - 1) % WORD / PAGE_SZ * PAGE_SZ
  }

  /** The block size arena_grow asks memalign for. */
  function GrowSize(need: nat): nat {
    var bs := if need > BLOCK_SZ then need else BLOCK_SZ;
    (bs + ARENA_ALIGN - 1) % WORD / ARENA_ALIGN * ARENA_ALIGN
  }

  /** The lengths whose rounding neither wraps to a smaller page count nor to a smaller block. */
  predicate NoWrap(len: nat) {
    len <= WORD - ARENA_ALIGN
  }

  /** The lengths that whole pages can hold, but whole blocks cannot. */
  predicate BlockWraps(len: nat) {
    WORD - ARENA_ALIGN < len <= WORD - PAGE_SZ
  }

  /** The lengths that whole pages cannot hold. */
  predicate PageWraps(len: nat) {
    len > WORD - PAGE_SZ
  }

  /** Every non-zero length falls in exactly one of three ranges, told apart by which rounding comes out as zero. */
  lemma RoundingCases(len: nat)
    requires 0 < len < WORD
    ensures PageUp(len) == 0 <==> PageWraps(len)
    ensures !PageWraps(len) ==> len <= PageUp(len) < len + PAGE_SZ
    ensures GrowSize(PageUp(len)) == 0 <==> BlockWraps(len)
    ensures GrowSize(PageUp(len)) >= PageUp(len) <==> !BlockWraps(len)
    ensures PageUp(len) % PAGE_SZ == 0 && GrowSize(PageUp(len)) % ARENA_ALIGN == 0
    ensures BlockWraps(len) ==> PageUp(len) > WORD - ARENA_ALIGN
  {
    var size := PageUp(len);
    if PageWraps(len) {
      assert (len + PAGE_SZ - 1) % WORD == len + PAGE_SZ - 1 - WORD;
    } else {
      assert (len + PAGE_SZ - 1) % WORD == len + PAGE_SZ - 1;
    }
  }

  /** A block is asked for as 32 MiB, or for more as the least multiple of 2 MiB that holds it. */
  lemma BlockSizes(need: nat)
    requires need <= WORD - 0x20_0000
    ensures need <= 0x200_0000 ==> GrowSize(need) == 0x200_0000
    ensures need > 0x200_0000 ==> need <= GrowSize(need) < need + 0x20_0000 && GrowSize(need) % 0x20_0000 == 0
  {
  }

  /** A length is rounded up to the least multiple of 4 KiB that holds it, unless that is beyond the address space. */
  lemma PageSizes(len: nat)
    requires len <= WORD - 0x1000
    ensures len <= PageUp(len) < len + 0x1000 && PageUp(len) % 0x1000 == 0
  {
  }

  /** The roundings are safe for exactly the lengths up to one block alignment below the word size. */
  lemma RoundingIsSafeIff(len: nat)
    requires len < WORD
    ensures NoWrap(len) <==> len <= PageUp(len) <= GrowSize(PageUp(len))
    ensures NoWrap(len) ==> PageUp(len) < len + PAGE_SZ && PageUp(len) % PAGE_SZ == 0 && PageUp(len) <= WORD - ARENA_ALIGN
    ensures NoWrap(len) ==> GrowSize(PageUp(len)) % ARENA_ALIGN == 0
  {
  }

  // ----- bytes

  ghost function Range(start: nat, size: nat): set<nat> {
    if size == 0 then {} else Range(start, size - 1) + {start + size - 1}
  }

  lemma {:induction false} RangeMembers(start: nat, size: nat)
    ensures forall b :: b in Range(start, size) <==> start <= b < start + size
    ensures |Range(start, size)| == size
  {
    if size > 0 {
      RangeMembers(start, size - 1);
    }
  }

  ghost predicate InRegion(r: Region, b: nat) {
    r.start <= b < r.End()
  }

  ghost predicate Covered(rs: seq<Region>, b: nat) {
    exists i :: 0 <= i < |rs| && InRegion(rs[i], b)
  }

  lemma CoveredLast(rs: seq<Region>, b: nat)
    requires rs != []
    ensures Covered(rs, b) <==> Covered(rs[..|rs| - 1], b) || InRegion(rs[|rs| - 1], b)
  {
    var n := |rs| - 1;
    if Covered(rs[..n], b) {
      var i :| 0 <= i < n && InRegion(rs[..n][i], b);
      assert InRegion(rs[i], b);
    }
    if i :| 0 <= i < |rs| && InRegion(rs[i], b) && i < n {
      assert InRegion(rs[..n][i], b);
    }
  }

  ghost function Bytes(rs: seq<Region>): set<nat> {
    if rs == [] then {}
    else Bytes(rs[..|rs| - 1]) + Range(rs[|rs| - 1].start, rs[|rs| - 1].size)
  }

  lemma {:induction false} BytesMembers(rs: seq<Region>)
    ensures forall b :: b in Bytes(rs) <==> Covered(rs, b)
  {
    if rs != [] {
      var n := |rs| - 1;
      BytesMembers(rs[..n]);
      RangeMembers(rs[n].start, rs[n].size);
      forall b: nat
        ensures b in Bytes(rs) <==> Covered(rs, b)
      {
        CoveredLast(rs, b);
      }
    }
  }

  ghost function TotalSize(rs: seq<Region>): nat {
    if rs == [] then 0 else TotalSize(rs[..|rs| - 1]) + rs[|rs| - 1].size
  }

  /** No byte in both. */
  ghost predicate Apart(r: Region, s: Region) {
    r.size == 0 || s.size == 0 || r.End() <= s.start || s.End() <= r.start
  }

  ghost predicate Disjoint(rs: seq<Region>) {
    forall i, j :: 0 <= i < j < |rs| ==> Apart(rs[i], rs[j])
  }

  ghost predicate Sound(r: Region) {
    r.start % PAGE_SZ == 0 && r.size % PAGE_SZ == 0
  }

  /** Empty regions come only from lengths whose rounding wraps. */
  ghost predicate NoEmpty(rs: seq<Region>) {
    forall i :: 0 <= i < |rs| ==> rs[i].size > 0
  }

  /** Page-aligned, pairwise disjoint. */
  ghost predicate Good(rs: seq<Region>) {
    Disjoint(rs) && forall i :: 0 <= i < |rs| ==> Sound(rs[i])
  }

  /** The free list accounts for every free byte once. */
  lemma {:induction false} BytesCount(rs: seq<Region>)
    requires Disjoint(rs)
    ensures |Bytes(rs)| == TotalSize(rs)
  {
    if rs != [] {
      hide Covered, Range;
      var n := |rs| - 1;
      BytesCount(rs[..n]);
      BytesMembers(rs[..n]);
      RangeMembers(rs[n].start, rs[n].size);
      forall b | b in Bytes(rs[..n])
        ensures b !in Range(rs[n].start, rs[n].size)
      {
        LastIsApart(rs, b);
      }
    }
  }

  lemma LastIsApart(rs: seq<Region>, b: nat)
    requires rs != [] && Disjoint(rs) && Covered(rs[..|rs| - 1], b)
    ensures !InRegion(rs[|rs| - 1], b)
  {
    var n := |rs| - 1;
    var i :| 0 <= i < n && InRegion(rs[..n][i], b);
    assert Apart(rs[i], rs[n]);
  }

  // ----- merging

  ghost predicate Adjacent(r: Region, s: Region) {
    r.End() == s.start || s.End() == r.start
  }

  ghost predicate NoAdjacent(rs: seq<Region>) {
    forall i, j :: 0 <= i < j < |rs| ==> !Adjacent(rs[i], rs[j])
  }

  /** No two regions that hold bytes touch. */
  ghost predicate Maximal(rs: seq<Region>) {
    forall i, j :: 0 <= i < j < |rs| && rs[i].size > 0 && rs[j].size > 0 ==> !Adjacent(rs[i], rs[j])
  }

  lemma NoAdjacentIsMaximal(rs: seq<Region>)
    ensures NoAdjacent(rs) ==> Maximal(rs)
    ensures NoEmpty(rs) ==> (Maximal(rs) <==> NoAdjacent(rs))
  {
  }

  /** keep grows by the region drop that follows it; the last region moves into drop's place. */
  function Merge(rs: seq<Region>, keep: nat, drop: nat): seq<Region>
    requires keep < |rs| && drop < |rs|
  {
    var grown := rs[keep := Region(rs[keep].start, rs[keep].size + rs[drop].size)];
    grown[drop := grown[|rs| - 1]][..|rs| - 1]
  }

  lemma MergeKeepsGood(rs: seq<Region>, keep: nat, drop: nat)
    requires Good(rs) && keep < |rs| && drop < |rs| && keep != drop
    requires rs[keep].End() == rs[drop].start
    ensures Good(Merge(rs, keep, drop)) && (NoEmpty(rs) ==> NoEmpty(Merge(rs, keep, drop)))
  {
    var rs', m := Merge(rs, keep, drop), Region(rs[keep].start, rs[keep].size + rs[drop].size);
    var n := |rs| - 1;
    assert Sound(rs[keep]) && Sound(rs[drop]);
    assert Sound(m) by { SumOfPages(rs[keep].size, rs[drop].size); }
    forall x | 0 <= x < |rs| && x != keep && x != drop
      ensures Apart(m, rs[x])
    {
      assert Apart(rs[keep], rs[x]) && Apart(rs[drop], rs[x]) && Sound(rs[x]);
    }
    forall i, j | 0 <= i < j < |rs'|
      ensures Apart(rs'[i], rs'[j])
    {
    }
  }

  lemma SumOfPages(a: nat, b: nat)
    requires a % PAGE_SZ == 0 && b % PAGE_SZ == 0
    ensures (a + b) % PAGE_SZ == 0
  {
  }

  lemma MergeKeepsBytes(rs: seq<Region>, keep: nat, drop: nat)
    requires keep < |rs| && drop < |rs| && keep != drop
    requires rs[keep].End() == rs[drop].start
    ensures Bytes(Merge(rs, keep, drop)) == Bytes(rs)
  {
    hide Bytes, Covered, Merge;
    forall b: nat
      ensures Covered(Merge(rs, keep, drop), b) <==> Covered(rs, b)
    {
      MergeKeepsByte(rs, keep, drop, b);
    }
    var s, s' := Bytes(rs), Bytes(Merge(rs, keep, drop));
    BytesMembers(rs);
    BytesMembers(Merge(rs, keep, drop));
    assert forall b :: b in s <==> b in s';
  }

  lemma MergeKeepsByte(rs: seq<Region>, keep: nat, drop: nat, b: nat)
    requires keep < |rs| && drop < |rs| && keep != drop
    requires rs[keep].End() == rs[drop].start
    ensures Covered(Merge(rs, keep, drop), b) <==> Covered(rs, b)
  {
    var rs' := Merge(rs, keep, drop);
    var n := |rs| - 1;
    if Covered(rs, b) {
      var i :| 0 <= i < |rs| && InRegion(rs[i], b);
      var k := if i == keep || i == drop then keep else i;
      var x := if k == n then drop else k;
      assert InRegion(rs'[x], b);
    }
    if Covered(rs', b) {
      var x :| 0 <= x < |rs'| && InRegion(rs'[x], b);
      var k := if x == drop then n else x;
      assert k == keep ==> InRegion(rs[keep], b) || InRegion(rs[drop], b);
      assert k != keep ==> InRegion(rs[k], b);
    }
  }

  // ----- first fit

  predicate Fits(rs: seq<Region>, size: nat) {
    exists i :: 0 <= i < |rs| && rs[i].size >= size
  }

  /** Index of the first region of at least size bytes, from i on. */
  function FirstFit(rs: seq<Region>, size: nat, i: nat): Option<nat>
    requires i <= |rs|
    decreases |rs| - i
  {
    if i == |rs| then None else if rs[i].size >= size then Some(i) else FirstFit(rs, size, i + 1)
  }

  lemma {:induction false} FirstFitFinds(rs: seq<Region>, size: nat, i: nat)
    requires i <= |rs|
    ensures var f := FirstFit(rs, size, i);
            && (f.Some? ==> i <= f.value < |rs| && rs[f.value].size >= size)
            && (f.Some? ==> forall k :: i <= k < f.value ==> rs[k].size < size)
            && (f.None? ==> forall k :: i <= k < |rs| ==> rs[k].size < size)
    decreases |rs| - i
  {
    if i < |rs| && rs[i].size < size {
      FirstFitFinds(rs, size, i + 1);
    }
  }

  /** Region i gives up its first size bytes; an exhausted region is replaced by the last one. */
  function Carve(rs: seq<Region>, i: nat, size: nat): seq<Region>
    requires i < |rs| && size <= rs[i].size
  {
    var rest := Region(rs[i].start + size, rs[i].size - size);
    if rest.size == 0 then rs[i := rs[|rs| - 1]][..|rs| - 1] else rs[i := rest]
  }

  /** What Carve leaves at each position: the rest of region i, or the last region in its place. */
  lemma CarvePlaces(rs: seq<Region>, i: nat, size: nat)
    requires i < |rs| && size <= rs[i].size
    ensures var rs' := Carve(rs, i, size);
            && |rs'| == |rs| - (if size == rs[i].size then 1 else 0)
            && (forall x :: 0 <= x < |rs'| && x != i ==> rs'[x] == rs[x])
            && (i < |rs'| ==> if size == rs[i].size then rs'[i] == rs[|rs| - 1]
                              else rs'[i].start == rs[i].start + size && rs'[i].size == rs[i].size - size)
  {
  }

  lemma CarveKeepsGood(rs: seq<Region>, i: nat, size: nat)
    requires Good(rs) && i < |rs| && size <= rs[i].size && size % PAGE_SZ == 0
    ensures Good(Carve(rs, i, size))
    ensures Maximal(rs) ==> Maximal(Carve(rs, i, size))
    ensures NoEmpty(rs) ==> NoEmpty(Carve(rs, i, size))
  {
    var rs' := Carve(rs, i, size);
    assert Sound(rs[i]);
    if size < rs[i].size {
      SumOfPages(rs[i].start, size);
      forall x | 0 <= x < |rs| && x != i
        ensures Apart(rs'[i], rs[x])
        ensures rs[x].size > 0 && Adjacent(rs'[i], rs[x]) ==> Adjacent(rs[i], rs[x])
      {
        assert Apart(rs[i], rs[x]) && Sound(rs[x]);
      }
    }
  }

  /** The carved bytes are exactly what leaves the free list. */
  lemma CarveTakesRange(rs: seq<Region>, i: nat, size: nat)
    requires Disjoint(rs) && i < |rs| && size <= rs[i].size
    ensures Range(rs[i].start, size) <= Bytes(rs)
    ensures Bytes(Carve(rs, i, size)) == Bytes(rs) - Range(rs[i].start, size)
  {
    hide Bytes, Covered, Carve, Range, Disjoint;
    forall b: nat
      ensures Covered(Carve(rs, i, size), b) <==> Covered(rs, b) && !(rs[i].start <= b < rs[i].start + size)
      ensures rs[i].start <= b < rs[i].start + size ==> Covered(rs, b)
    {
      CarveByte(rs, i, size, b);
    }
    var s, s', r := Bytes(rs), Bytes(Carve(rs, i, size)), Range(rs[i].start, size);
    BytesMembers(rs);
    BytesMembers(Carve(rs, i, size));
    RangeMembers(rs[i].start, size);
    assert forall b :: b in s' <==> b in s && b !in r;
  }

  lemma CarveByte(rs: seq<Region>, i: nat, size: nat, b: nat)
    requires Disjoint(rs) && i < |rs| && size <= rs[i].size
    ensures Covered(Carve(rs, i, size), b) <==> Covered(rs, b) && !(rs[i].start <= b < rs[i].start + size)
    ensures rs[i].start <= b < rs[i].start + size ==> Covered(rs, b)
  {
    var rs' := Carve(rs, i, size);
    var n := |rs| - 1;
    if rs[i].start <= b < rs[i].start + size {
      assert InRegion(rs[i], b);
    } else if Covered(rs, b) {
      var k :| 0 <= k < |rs| && InRegion(rs[k], b);
      var x := if size == rs[i].size && k == n then i else k;
      assert InRegion(rs'[x], b);
    }
    if Covered(rs', b) {
      var x :| 0 <= x < |rs'| && InRegion(rs'[x], b);
      var k := if size == rs[i].size && x == i then n else x;
      assert InRegion(rs[k], b);
      if k != i {
        assert Apart(rs[k], rs[i]) || Apart(rs[i], rs[k]);
      }
    }
  }

  /** With no two non-empty regions adjacent, a run of free bytes lies inside one region. */
  lemma RunsFitRegions(rs: seq<Region>, size: nat)
    requires Good(rs) && Maximal(rs) && size > 0
    ensures Fits(rs, size) <==> exists a: nat :: Range(a, size) <= Bytes(rs)
  {
    hide Bytes, Range;
    BytesMembers(rs);
    if Fits(rs, size) {
      var i :| 0 <= i < |rs| && rs[i].size >= size;
      RangeMembers(rs[i].start, size);
      assert forall b :: b in Range(rs[i].start, size) ==> InRegion(rs[i], b) && Covered(rs, b);
      assert Range(rs[i].start, size) <= Bytes(rs);
    }
    if a: nat :| Range(a, size) <= Bytes(rs) {
      RangeMembers(a, size);
      assert a in Bytes(rs);
      var i :| 0 <= i < |rs| && InRegion(rs[i], a);
      if a + size > rs[i].End() {
        assert rs[i].End() in Bytes(rs);
        var j :| 0 <= j < |rs| && InRegion(rs[j], rs[i].End());
        RegionsMeet(rs, i, j);
      }
      assert rs[i].size >= size;
    }
  }

  lemma RegionsMeet(rs: seq<Region>, i: nat, j: nat)
    requires Good(rs) && i < |rs| && j < |rs| && InRegion(rs[j], rs[i].End()) && rs[i].size > 0
    ensures !Maximal(rs)
  {
    assert Sound(rs[i]) && Sound(rs[j]);
    if i < j {
      assert Apart(rs[i], rs[j]) && Adjacent(rs[i], rs[j]);
    } else {
      assert Apart(rs[j], rs[i]) && Adjacent(rs[j], rs[i]);
    }
  }

  lemma AppendKeepsGood(rs: seq<Region>, r: Region)
    requires Good(rs) && Sound(r) && Bytes(rs) !! Range(r.start, r.size)
    ensures Good(rs + [r]) && Bytes(rs + [r]) == Bytes(rs) + Range(r.start, r.size)
  {
    hide Bytes, Range;
    forall i | 0 <= i < |rs|
      ensures Apart(rs[i], r)
    {
      AppendApart(rs, r, i);
    }
    AppendBytes(rs, r);
  }

  lemma AppendBytes(rs: seq<Region>, r: Region)
    ensures Bytes(rs + [r]) == Bytes(rs) + Range(r.start, r.size)
  {
    hide Covered, Range;
    assert (rs + [r])[..|rs|] == rs;
  }

  lemma AppendApart(rs: seq<Region>, r: Region, i: nat)
    requires Good(rs) && Sound(r) && Bytes(rs) !! Range(r.start, r.size) && i < |rs|
    ensures Apart(rs[i], r)
  {
    hide Bytes, Range;
    BytesMembers(rs);
    RangeMembers(r.start, r.size);
    assert Sound(rs[i]);
    var b := if r.start <= rs[i].start then rs[i].start else r.start;
    assert InRegion(rs[i], b) ==> Covered(rs, b);
    assert InRegion(rs[i], b) ==> b !in Range(r.start, r.size);
  }

  // ----- accounting

  /** Every byte grown is in exactly one of free, live and dropped. */
  ghost predicate Accounted(grown: set<nat>, free: set<nat>, live: set<nat>, dropped: set<nat>) {
    free !! live !! dropped && grown == free + live + dropped
  }

  lemma AccountTake(grown: set<nat>, free: set<nat>, live: set<nat>, dropped: set<nat>, r: set<nat>)
    requires Accounted(grown, free, live, dropped) && r <= free
    ensures Accounted(grown, free - r, live + r, dropped) && r !! live
  {
  }

  lemma AccountReturn(grown: set<nat>, free: set<nat>, live: set<nat>, dropped: set<nat>, r: set<nat>)
    requires Accounted(grown, free, live, dropped) && r <= live
    ensures Accounted(grown, free + r, live - r, dropped) && free !! r
  {
  }

  lemma AccountDrop(grown: set<nat>, free: set<nat>, live: set<nat>, dropped: set<nat>, r: set<nat>)
    requires Accounted(grown, free, live, dropped) && r <= live
    ensures Accounted(grown, free, live - r, dropped + r)
  {
  }

  lemma AccountGrow(grown: set<nat>, free: set<nat>, live: set<nat>, dropped: set<nat>, r: set<nat>)
    requires Accounted(grown, free, live, dropped) && r !! grown
    ensures Accounted(grown + r, free + r, live, dropped) && free !! r
  {
  }

  lemma AccountSize(grown: set<nat>, free: set<nat>, live: set<nat>, dropped: set<nat>)
    requires Accounted(grown, free, live, dropped)
    ensures |grown| == |free| + |live| + |dropped|
  {
  }
}
