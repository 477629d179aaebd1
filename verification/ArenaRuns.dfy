/**
 * mmap and munmap of switch_virtmem.c as steps between states: what each call
 * answers for every length, and what holds over whole runs of calls.
 */
module ArenaRuns {
  import opened Wrappers
  import opened ArenaRegions

  const MAP_FAILED: nat := WORD - 1

  datatype Errno = EINVAL | ENOMEM
  datatype MmapResult = Mapped(addr: nat) | Failed(errno: Errno)

  /** The free list, and every byte memalign has handed over: free, live or dropped. */
  datatype State = State(free: seq<Region>, grown: set<nat>, live: set<nat>, dropped: set<nat>)

  ghost predicate Valid(s: State) {
    && |s.free| <= MAX_FREE && Good(s.free)
    && Accounted(s.grown, Bytes(s.free), s.live, s.dropped)
    && forall b :: b in s.grown ==> ARENA_ALIGN <= b < MAP_FAILED
  }

  /** What memalign may return: an aligned block of bytes nobody owns yet. */
  ghost predicate FreshBlock(grown: set<nat>, p: nat, bs: nat) {
    0 < p && p % ARENA_ALIGN == 0 && p + bs < MAP_FAILED && Range(p, bs) !! grown
  }

  // ----- mmap

  /** memalign's answers, None for a null pointer; it is asked twice only if the first block is too small. */
  ghost predicate Answers(s: State, len: nat, block: Option<nat>, second: Option<nat>) {
    && (block.Some? ==> FreshBlock(s.grown, block.value, GrowSize(PageUp(len))))
    && (second.Some? && BlockWraps(len) ==> FreshBlock(s.grown, second.value, GrowSize(PageUp(len))))
  }

  datatype Reply = Reply(state: State, result: MmapResult)

  /** The first region of at least size bytes gives up its front. */
  ghost function TakeFirst(s: State, size: nat): Reply {
    match FirstFit(s.free, size, 0)
    case None => Reply(s, Failed(ENOMEM))
    case Some(i) =>
      FirstFitFinds(s.free, size, 0);
      Reply(s.(free := Carve(s.free, i, size), live := s.live + Range(s.free[i].start, size)), Mapped(s.free[i].start))
  }

  ghost predicate CanGrow(s: State, block: Option<nat>) {
    |s.free| < MAX_FREE && block.Some?
  }

  ghost function Grow(s: State, bs: nat, block: Option<nat>): State {
    if CanGrow(s, block) then s.(free := s.free + [Region(block.value, bs)], grown := s.grown + Range(block.value, bs))
    else s
  }

  /** Two attempts to take from the list; each that fails asks memalign for a block, and gives up without one. */
  ghost function Mmap(s: State, len: nat, block: Option<nat>, second: Option<nat>): Reply {
    if len == 0 then Reply(s, Failed(EINVAL))
    else
      var size := PageUp(len);
      var bs := GrowSize(size);
      if TakeFirst(s, size).result.Mapped? then TakeFirst(s, size)
      else if !CanGrow(s, block) then Reply(s, Failed(ENOMEM))
      else
        var g := Grow(s, bs, block);
        if TakeFirst(g, size).result.Mapped? then TakeFirst(g, size)
        else Reply(Grow(g, bs, second), Failed(ENOMEM))
  }

  lemma TakesIffFits(s: State, size: nat)
    ensures TakeFirst(s, size).result.Mapped? <==> Fits(s.free, size)
    ensures !Fits(s.free, size) ==> TakeFirst(s, size) == Reply(s, Failed(ENOMEM))
  {
    FirstFitFinds(s.free, size, 0);
  }

  /** Taking from the list moves page-aligned bytes from free to live. */
  lemma TakeFacts(s: State, size: nat)
    requires Valid(s) && size % PAGE_SZ == 0 && Fits(s.free, size)
    ensures var t := TakeFirst(s, size);
            && Valid(t.state) && t.result.Mapped? && t.result.addr % PAGE_SZ == 0
            && t.state.grown == s.grown && t.state.dropped == s.dropped
            && Range(t.result.addr, size) <= Bytes(s.free) && Range(t.result.addr, size) !! s.live
            && t.state.live == s.live + Range(t.result.addr, size)
            && Bytes(t.state.free) == Bytes(s.free) - Range(t.result.addr, size)
            && (Maximal(s.free) ==> Maximal(t.state.free)) && (NoEmpty(s.free) ==> NoEmpty(t.state.free))
  {
    hide Bytes, Range, Carve, Maximal, NoEmpty, FirstFit;
    TakesIffFits(s, size);
    FirstFitFinds(s.free, size, 0);
    var i := FirstFit(s.free, size, 0).value;
    CarveKeepsGood(s.free, i, size);
    CarveTakesRange(s.free, i, size);
    assert Sound(s.free[i]);
    AccountTake(s.grown, Bytes(s.free), s.live, s.dropped, Range(s.free[i].start, size));
    CarveShrinks(s.free, i, size);
  }

  lemma CarveShrinks(rs: seq<Region>, i: nat, size: nat)
    requires i < |rs| && size <= rs[i].size
    ensures |Carve(rs, i, size)| <= |rs|
  {
  }

  lemma GrowFacts(s: State, bs: nat, block: Option<nat>)
    requires Valid(s) && bs % ARENA_ALIGN == 0 && (block.Some? ==> FreshBlock(s.grown, block.value, bs))
    ensures var g := Grow(s, bs, block);
            Valid(g) && g.live == s.live && g.dropped == s.dropped && (bs > 0 && NoEmpty(s.free) ==> NoEmpty(g.free))
            && (bs == 0 ==> g.grown == s.grown && (Maximal(s.free) ==> Maximal(g.free)))
            && (CanGrow(s, block) && bs > 0 ==> g.grown != s.grown)
  {
    hide Bytes, Accounted, Good, Range;
    if CanGrow(s, block) {
      var r := Region(block.value, bs);
      PagesOfBlock(block.value);
      PagesOfBlock(bs);
      AccountGrow(s.grown, Bytes(s.free), s.live, s.dropped, Range(r.start, bs));
      AppendKeepsGood(s.free, r);
      RangeMembers(r.start, bs);
      BlockAddresses(block.value);
      if bs > 0 {
        assert r.start in Range(r.start, bs);
      } else {
        assert Range(r.start, bs) == {};
      }
    }
  }

  lemma PagesOfBlock(x: nat)
    requires x % ARENA_ALIGN == 0
    ensures x % PAGE_SZ == 0
  {
  }

  lemma BlockAddresses(x: nat)
    requires x % ARENA_ALIGN == 0 && x > 0
    ensures x >= ARENA_ALIGN
  {
  }

  /** No region is as large as the lengths whose block size wraps: the arena's bytes lie in the address space. */
  lemma NothingFits(s: State, size: nat)
    requires Valid(s) && size > WORD - ARENA_ALIGN
    ensures !Fits(s.free, size)
  {
    hide Bytes;
    if i :| 0 <= i < |s.free| && s.free[i].size >= size {
      BytesMembers(s.free);
      var r := s.free[i];
      assert InRegion(r, r.start) && InRegion(r, r.End() - 1);
      assert Covered(s.free, r.start) && Covered(s.free, r.End() - 1);
      assert r.start in s.grown && r.End() - 1 in s.grown;
    }
  }

  /** A list that has just grown by a large enough block serves the request from it. */
  lemma GrownFits(s: State, size: nat, bs: nat, block: Option<nat>)
    requires CanGrow(s, block) && !Fits(s.free, size) && bs >= size
    ensures var g := Grow(s, bs, block); Fits(g.free, size) && TakeFirst(g, size).result == Mapped(block.value)
  {
    var g := Grow(s, bs, block);
    FirstFitFinds(g.free, size, 0);
    assert g.free[|s.free|].size >= size;
  }

  // ----- the three ranges of lengths

  /**
   * Lengths whose block size does not wrap. The call fails only if no region
   * fits and the list is full or memalign fails; otherwise bytes that were not
   * live before become live, from the list if some region fits.
   */
  lemma MmapServes(s: State, len: nat, block: Option<nat>, second: Option<nat>)
    requires Valid(s) && 0 < len < WORD && !BlockWraps(len) && Answers(s, len, block, second)
    ensures var t := Mmap(s, len, block, second);
            var size, fits := PageUp(len), Fits(s.free, PageUp(len));
            && Valid(t.state) && t.state.dropped == s.dropped && (NoEmpty(s.free) ==> NoEmpty(t.state.free))
            && (t.result.Failed? <==> !fits && !CanGrow(s, block))
            && (t.result.Failed? ==> t == Reply(s, Failed(ENOMEM)))
            && (t.result.Mapped? ==> t.result.addr % PAGE_SZ == 0 && Range(t.result.addr, size) !! s.live
                                     && t.state.live == s.live + Range(t.result.addr, size))
            && (fits ==> t == TakeFirst(s, size) && t.state.grown == s.grown && Range(t.result.addr, size) <= Bytes(s.free))
            && (!fits && t.result.Mapped? ==> t == TakeFirst(Grow(s, GrowSize(size), block), size)
                                              && t.result.addr == block.value && t.state.grown != s.grown)
  {
    hide Good, Accounted, Bytes, Range, Carve, Fits, NoEmpty, Maximal, FirstFit, TakeFirst, Grow, FreshBlock;
    var size := PageUp(len);
    RoundingCases(len);
    TakesIffFits(s, size);
    if Fits(s.free, size) {
      TakeFacts(s, size);
    } else if CanGrow(s, block) {
      GrowFacts(s, GrowSize(size), block);
      GrownFits(s, size, GrowSize(size), block);
      TakesIffFits(Grow(s, GrowSize(size), block), size);
      TakeFacts(Grow(s, GrowSize(size), block), size);
      assert GrowSize(size) > 0;
    }
  }

  /** The empty regions such a call leaves on the list: one for each block memalign hands out while there is room. */
  ghost function EmptyBlocks(room: nat, block: Option<nat>, second: Option<nat>): seq<Region> {
    if room == 0 || block.None? then []
    else if room == 1 || second.None? then [Region(block.value, 0)]
    else [Region(block.value, 0), Region(second.value, 0)]
  }

  /**
   * Lengths that whole pages can hold but whole blocks cannot: mmap always
   * fails, although the list may have room and memalign may answer, and every
   * block it was given stays behind as an empty region.
   */
  lemma BlockWrapsFails(s: State, len: nat, block: Option<nat>, second: Option<nat>)
    requires Valid(s) && len < WORD && BlockWraps(len) && Answers(s, len, block, second)
    ensures var t := Mmap(s, len, block, second);
            && t == Reply(s.(free := s.free + EmptyBlocks(MAX_FREE - |s.free|, block, second)), Failed(ENOMEM))
            && Valid(t.state) && (Maximal(s.free) ==> Maximal(t.state.free))
            && (NoEmpty(t.state.free) <==> NoEmpty(s.free) && !CanGrow(s, block))
  {
    hide Good, Accounted, Bytes, Range, Carve, Fits, Maximal, FirstFit, TakeFirst, FreshBlock;
    var size := PageUp(len);
    RoundingCases(len);
    NothingFits(s, size);
    TakesIffFits(s, size);
    GrowFacts(s, 0, block);
    var g := Grow(s, 0, block);
    NothingFits(g, size);
    TakesIffFits(g, size);
    GrowFacts(g, 0, second);
    if CanGrow(s, block) {
      assert g.free[|s.free|].size == 0;
      EmptyStays(g.free, EmptyBlocks(MAX_FREE - |s.free|, block, second), s.free);
    } else {
      assert s.free + [] == s.free;
    }
  }

  lemma EmptyStays(g: seq<Region>, empties: seq<Region>, free: seq<Region>)
    requires |empties| > 0 && empties[0].size == 0
    ensures !NoEmpty(free + empties)
  {
    assert (free + empties)[|free|].size == 0;
  }

  /** The list has a first fit, and giving up its front leaves every free byte where it was. */
  ghost predicate TakenUnreserved(rs: seq<Region>, size: nat) {
    var f := FirstFit(rs, size, 0);
    f.Some? && f.value < |rs| && size <= rs[f.value].size && Bytes(Carve(rs, f.value, size)) == Bytes(rs)
  }

  /** Over every non-empty list: the first fit is taken without reserving a byte exactly when the length is beyond the last page. */
  lemma ReservesNothingIff(rs: seq<Region>, len: nat)
    requires Good(rs) && rs != [] && 0 < len < WORD
    ensures TakenUnreserved(rs, PageUp(len)) <==> PageWraps(len)
    ensures PageWraps(len) ==> FirstFit(rs, PageUp(len), 0) == Some(0)
  {
    hide Bytes, Range, Carve, FirstFit;
    var size := PageUp(len);
    RoundingCases(len);
    FirstFitFinds(rs, size, 0);
    if Fits(rs, size) {
      FirstFitIsFirst(rs, size);
      var i := FirstFit(rs, size, 0).value;
      CarveTakesRange(rs, i, size);
      RangeMembers(rs[i].start, size);
      if size > 0 {
        assert rs[i].start in Range(rs[i].start, size);
        assert rs[i].start in Bytes(rs);
      } else {
        assert Range(rs[i].start, size) == {};
      }
    } else {
      assert rs[0].size < size;
    }
  }

  lemma FirstFitIsFirst(rs: seq<Region>, size: nat)
    requires Fits(rs, size)
    ensures FirstFit(rs, size, 0).Some?
    ensures size == 0 ==> FirstFit(rs, size, 0) == Some(0)
  {
    FirstFitFinds(rs, size, 0);
  }

  /** A call that maps anything reserves nothing exactly when the length is beyond the last page. */
  lemma MapsWithoutReserving(s: State, len: nat, block: Option<nat>, second: Option<nat>)
    requires Valid(s) && 0 < len < WORD && Answers(s, len, block, second) && Mmap(s, len, block, second).result.Mapped?
    ensures Mmap(s, len, block, second).state.live == s.live <==> PageWraps(len)
  {
    hide Good, Accounted, Bytes, Range, Carve, Fits, NoEmpty, Maximal, FirstFit, TakeFirst, Grow, FreshBlock, Mmap;
    RoundingCases(len);
    if BlockWraps(len) {
      BlockWrapsFails(s, len, block, second);
    } else {
      MmapServes(s, len, block, second);
      var t := Mmap(s, len, block, second);
      RangeMembers(t.result.addr, PageUp(len));
      if PageUp(len) > 0 {
        assert t.result.addr in Range(t.result.addr, PageUp(len));
      } else {
        assert Range(t.result.addr, PageUp(len)) == {};
      }
    }
  }

  /** With no two non-empty regions adjacent, the list alone serves a call exactly when a contiguous run is free. */
  lemma ServedIffRunIsFree(s: State, len: nat, block: Option<nat>, second: Option<nat>)
    requires Valid(s) && Maximal(s.free) && 0 < len < WORD && !PageWraps(len) && Answers(s, len, block, second)
    ensures var t := Mmap(s, len, block, second);
            t.result.Mapped? && t.state.grown == s.grown <==> exists a: nat :: Range(a, PageUp(len)) <= Bytes(s.free)
  {
    hide Good, Accounted, Bytes, Range, Carve, Fits, NoEmpty, Maximal, FirstFit, TakeFirst, Grow, FreshBlock, Mmap;
    RoundingCases(len);
    assert Good(s.free);
    RunsFitRegions(s.free, PageUp(len));
    if BlockWraps(len) {
      BlockWrapsFails(s, len, block, second);
      NothingFits(s, PageUp(len));
    } else {
      MmapServes(s, len, block, second);
    }
  }

  /** A call that does not grow the arena keeps a coalesced list coalesced. */
  lemma MmapKeepsMaximal(s: State, len: nat, block: Option<nat>, second: Option<nat>)
    requires Valid(s) && Maximal(s.free) && len < WORD && Answers(s, len, block, second)
    requires Mmap(s, len, block, second).state.grown == s.grown
    ensures Maximal(Mmap(s, len, block, second).state.free)
  {
    hide Good, Accounted, Bytes, Range, Carve, Fits, NoEmpty, Maximal, FirstFit, TakeFirst, Grow, FreshBlock, Mmap;
    if len == 0 {
      NothingMapped(s, block, second);
    } else if BlockWraps(len) {
      BlockWrapsFails(s, len, block, second);
    } else {
      RoundingCases(len);
      MmapServes(s, len, block, second);
      if Fits(s.free, PageUp(len)) {
        TakeFacts(s, PageUp(len));
      }
    }
  }

  lemma NothingMapped(s: State, block: Option<nat>, second: Option<nat>)
    ensures Mmap(s, 0, block, second) == Reply(s, Failed(EINVAL))
  {
  }

  // ----- munmap

  predicate Ignored(addr: nat, len: nat) {
    addr == 0 || addr == MAP_FAILED || len == 0
  }

  /** The bytes being returned are live and start on a page. */
  ghost predicate Returnable(s: State, addr: nat, len: nat) {
    !Ignored(addr, len) ==> addr % PAGE_SZ == 0 && Range(addr, PageUp(len)) <= s.live
  }

  /** A full list drops the bytes; otherwise they are free again and the list is coalesced. */
  ghost predicate MunmapStep(s: State, addr: nat, len: nat, s': State) {
    if Ignored(addr, len) then s' == s
    else
      var gone := Range(addr, PageUp(len));
      && s'.grown == s.grown && s'.live == s.live - gone
      && if |s.free| == MAX_FREE then s'.free == s.free && s'.dropped == s.dropped + gone
         else
           && s'.dropped == s.dropped && |s'.free| <= |s.free| + 1
           && Good(s'.free) && NoAdjacent(s'.free) && Bytes(s'.free) == Bytes(s.free) + gone
           && (NoEmpty(s.free) && PageUp(len) > 0 ==> NoEmpty(s'.free))
  }

  lemma MunmapKeepsValid(s: State, addr: nat, len: nat, s': State)
    requires Valid(s) && Returnable(s, addr, len) && MunmapStep(s, addr, len, s')
    ensures Valid(s')
    ensures Maximal(s.free) ==> Maximal(s'.free)
    ensures !Ignored(addr, len) && |s.free| < MAX_FREE ==> Maximal(s'.free)
  {
    hide Good, Bytes, Range, Accounted, Maximal, NoAdjacent, NoEmpty;
    if !Ignored(addr, len) {
      var gone := Range(addr, PageUp(len));
      AccountReturn(s.grown, Bytes(s.free), s.live, s.dropped, gone);
      AccountDrop(s.grown, Bytes(s.free), s.live, s.dropped, gone);
      NoAdjacentIsMaximal(s'.free);
    }
  }

  // ----- runs

  datatype Call =
    | CallMmap(len: nat, block: Option<nat>, second: Option<nat>)
    | CallMunmap(addr: nat, len: nat)

  /** Any size_t length; memalign's answers are fresh, and only live ranges are returned. */
  ghost predicate Allowed(s: State, call: Call) {
    call.len < WORD &&
    match call
    case CallMmap(len, block, second) => Answers(s, len, block, second)
    case CallMunmap(addr, len) => Returnable(s, addr, len)
  }

  ghost predicate Step(s: State, call: Call, s': State) {
    match call
    case CallMmap(len, block, second) => s' == Mmap(s, len, block, second).state
    case CallMunmap(addr, len) => MunmapStep(s, addr, len, s')
  }

  /** states[k] is the state before calls[k]. */
  ghost predicate Run(states: seq<State>, calls: seq<Call>) {
    && |states| == |calls| + 1
    && forall k :: 0 <= k < |calls| ==> Allowed(states[k], calls[k]) && Step(states[k], calls[k], states[k + 1])
  }

  lemma StepKeepsValid(s: State, call: Call, s': State)
    requires Valid(s) && Allowed(s, call) && Step(s, call, s')
    ensures Valid(s')
    ensures Maximal(s.free) && s'.grown == s.grown ==> Maximal(s'.free)
    ensures NoEmpty(s.free) && NoWrap(call.len) ==> NoEmpty(s'.free)
  {
    hide Valid, Good, Bytes, Range, Maximal, NoEmpty, Mmap, Answers, Returnable;
    match call
    case CallMmap(len, block, second) =>
      if len == 0 {
        NothingMapped(s, block, second);
      } else {
        RoundingCases(len);
        if BlockWraps(len) {
          BlockWrapsFails(s, len, block, second);
        } else {
          MmapServes(s, len, block, second);
        }
        if Maximal(s.free) && s'.grown == s.grown {
          MmapKeepsMaximal(s, len, block, second);
        }
      }
    case CallMunmap(addr, len) =>
      MunmapKeepsValid(s, addr, len, s');
      if len > 0 {
        RoundingCases(len);
      }
  }

  /**
   * Over every run, whatever the lengths: the regions stay aligned and disjoint,
   * and bytes grown equal bytes free plus live plus dropped. While no length
   * wraps, no region is ever empty.
   */
  lemma {:induction false} RunKeepsValid(states: seq<State>, calls: seq<Call>, k: nat)
    requires Run(states, calls) && Valid(states[0]) && k < |states|
    ensures Valid(states[k]) && |states[k].grown| == TotalSize(states[k].free) + |states[k].live| + |states[k].dropped|
    ensures NoEmpty(states[0].free) && (forall j :: 0 <= j < k ==> NoWrap(calls[j].len)) ==> NoEmpty(states[k].free)
  {
    hide Bytes, NoEmpty, Maximal, Step, Allowed;
    if k > 0 {
      RunKeepsValid(states, calls, k - 1);
      StepKeepsValid(states[k - 1], calls[k - 1], states[k]);
    }
    BytesCount(states[k].free);
    AccountSize(states[k].grown, Bytes(states[k].free), states[k].live, states[k].dropped);
  }

  /** Call i is a munmap that is recorded, and the arena does not grow from then until state j. */
  ghost predicate RecordedAt(states: seq<State>, calls: seq<Call>, i: nat, j: nat)
    requires |states| == |calls| + 1 && i < j < |states|
  {
    && calls[i].CallMunmap? && !Ignored(calls[i].addr, calls[i].len) && |states[i].free| < MAX_FREE
    && forall k :: i <= k <= j ==> states[k].grown == states[i].grown
  }

  lemma {:induction false} StaysMaximal(states: seq<State>, calls: seq<Call>, i: nat, j: nat)
    requires Run(states, calls) && Valid(states[0]) && i < j < |states| && RecordedAt(states, calls, i, j)
    ensures Maximal(states[j].free)
    decreases j
  {
    hide Valid, Maximal, Mmap, Answers, Returnable;
    RunKeepsValid(states, calls, j - 1);
    assert Allowed(states[j - 1], calls[j - 1]) && Step(states[j - 1], calls[j - 1], states[j]);
    if j == i + 1 {
      MunmapKeepsValid(states[i], calls[i].addr, calls[i].len, states[j]);
    } else {
      StaysMaximal(states, calls, i, j - 1);
      StepKeepsValid(states[j - 1], calls[j - 1], states[j]);
    }
  }

  /**
   * After a munmap that was recorded and until the arena next grows, mmap is
   * served from the list exactly when the free bytes contain a contiguous run
   * of the rounded size.
   */
  lemma ServedUntilNextGrowth(states: seq<State>, calls: seq<Call>, i: nat, j: nat)
    requires Run(states, calls) && Valid(states[0]) && i < j < |calls| && RecordedAt(states, calls, i, j)
    requires calls[j].CallMmap? && 0 < calls[j].len && !PageWraps(calls[j].len)
    ensures var t := Mmap(states[j], calls[j].len, calls[j].block, calls[j].second);
            t.state == states[j + 1] &&
            (t.result.Mapped? && t.state.grown == states[j].grown
             <==> exists a: nat :: Range(a, PageUp(calls[j].len)) <= Bytes(states[j].free))
  {
    hide Valid, Maximal, Mmap, Answers;
    RunKeepsValid(states, calls, j);
    StaysMaximal(states, calls, i, j);
    assert Allowed(states[j], calls[j]) && Step(states[j], calls[j], states[j + 1]);
    ServedIffRunIsFree(states[j], calls[j].len, calls[j].block, calls[j].second);
  }

  lemma ExtendRun(states: seq<State>, calls: seq<Call>, call: Call, s: State)
    requires Run(states, calls) && Allowed(states[|calls|], call) && Step(states[|calls|], call, s)
    ensures Run(states + [s], calls + [call])
  {
    hide Allowed, Step;
    var ss, cs := states + [s], calls + [call];
    forall k | 0 <= k < |cs|
      ensures Allowed(ss[k], cs[k]) && Step(ss[k], cs[k], ss[k + 1])
    {
      if k < |calls| {
        assert ss[k] == states[k] && ss[k + 1] == states[k + 1] && cs[k] == calls[k];
      }
    }
  }

  /** Whatever states the calls lead through from s, the next call is one the caller may make. */
  ghost predicate AllAllowed(s: State, calls: seq<Call>) {
    forall n: nat, states: seq<State> ::
      n < |calls| && Run(states, calls[..n]) && states[0] == s ==> Allowed(states[n], calls[n])
  }

  lemma NextAllowed(s: State, calls: seq<Call>, states: seq<State>, i: nat)
    requires AllAllowed(s, calls) && i < |calls| && Run(states, calls[..i]) && states[0] == s
    ensures Allowed(states[i], calls[i])
  {
    hide Allowed, Step;
  }

  lemma EmptyRun(s: State)
    ensures Run([s], [])
  {
  }
}
