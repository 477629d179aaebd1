/** mmap and munmap of switch_virtmem.c over the fixed array s_free. */
module Arenas {
  import opened Wrappers
  import opened ArenaRegions
  import opened ArenaRuns

  class Arena {
    const s_free: array<Region>
    var s_nfree: nat
    // every byte memalign has handed over, and where it is now when it is not on the free list
    ghost var grown: set<nat>
    ghost var live: set<nat>
    ghost var dropped: set<nat>

    ghost predicate InBounds()
      reads this
    {
      s_free.Length == MAX_FREE && s_nfree <= MAX_FREE
    }

    function Free(): seq<Region>
      requires s_nfree <= s_free.Length
      reads this, s_free
    {
      s_free[..s_nfree]
    }

    ghost function Snapshot(): State
      requires s_nfree <= s_free.Length
      reads this, s_free
    {
      State(Free(), grown, live, dropped)
    }

    /** Free, live and dropped bytes are disjoint and together are the bytes grown. */
    ghost predicate Valid()
      reads this, s_free
    {
      InBounds() && ArenaRuns.Valid(Snapshot())
    }

    constructor ()
      ensures Valid() && Snapshot() == State([], {}, {}, {}) && fresh(s_free)
    {
      s_free := new Region[MAX_FREE];
      s_nfree := 0;
      grown, live, dropped := {}, {}, {};
    }

    /** s_free[keep] grows by s_free[drop], which the last region replaces. */
    method MergeInto(keep: nat, drop: nat)
      requires InBounds() && keep < s_nfree && drop < s_nfree && keep != drop
      requires s_free[keep].End() == s_free[drop].start
      requires Good(Free())
      modifies this`s_nfree, s_free
      ensures InBounds() && s_nfree == old(s_nfree) - 1 && Free() == old(Merge(Free(), keep, drop))
      ensures Good(Free()) && Bytes(Free()) == old(Bytes(Free())) && (old(NoEmpty(Free())) ==> NoEmpty(Free()))
    {
      hide Good, Bytes, Merge, NoEmpty;
      ghost var rs := Free();
      s_free[keep] := Region(s_free[keep].start, s_free[keep].size + s_free[drop].size);
      s_nfree := s_nfree - 1;
      s_free[drop] := s_free[s_nfree];
      MergeIs(rs, keep, drop, Free());
      MergeKeepsGood(rs, keep, drop);
      MergeKeepsBytes(rs, keep, drop);
    }

    /** Pairs with a member before position i, and pairs of i with members before j, are not adjacent. */
    ghost predicate Scanned(i: int, j: int)
      requires InBounds()
      reads this, s_free
    {
      && (forall a, b :: 0 <= a < i && a < b < s_nfree ==> !Adjacent(s_free[a], s_free[b]))
      && (forall b :: 0 <= i < b < j && b < s_nfree ==> !Adjacent(s_free[i], s_free[b]))
    }

    /** The inner loop of coalesce: position i against all later ones. A merge into a later position starts all over. */
    method MergeAround(i: nat) returns (restart: bool)
      requires InBounds() && i < s_nfree && Good(Free()) && Scanned(i, i + 1)
      modifies this`s_nfree, s_free
      ensures InBounds() && s_nfree <= old(s_nfree) && Good(Free())
      ensures Bytes(Free()) == old(Bytes(Free())) && (old(NoEmpty(Free())) ==> NoEmpty(Free()))
      ensures if restart then s_nfree < old(s_nfree) else Scanned(i + 1, i + 2)
    {
      hide Good, Bytes, Merge, Adjacent, NoEmpty;
      var j: int := i + 1;
      while j < s_nfree
        invariant i < s_nfree && i < j && InBounds() && s_nfree <= old(s_nfree)
        invariant Good(Free()) && Bytes(Free()) == old(Bytes(Free())) && (old(NoEmpty(Free())) ==> NoEmpty(Free()))
        invariant Scanned(i, j)
        decreases s_nfree, s_nfree - j
      {
        if s_free[i].End() == s_free[j].start {
          ghost var rs := Free();
          MergeInto(i, j);
          MergeForward(rs, i, j);
          j := i;
        } else if s_free[j].End() == s_free[i].start {
          MergeInto(j, i);
          return true;
        } else {
          assert !Adjacent(s_free[i], s_free[j]) by { NotAdjacent(s_free[i], s_free[j]); }
        }
        j := j + 1;
      }
      return false;
    }

    method Coalesce()
      requires InBounds() && Good(Free())
      modifies this`s_nfree, s_free
      ensures InBounds() && Good(Free()) && NoAdjacent(Free())
      ensures Bytes(Free()) == old(Bytes(Free())) && s_nfree <= old(s_nfree)
      ensures old(NoEmpty(Free())) ==> NoEmpty(Free())
    {
      hide Good, Bytes, Adjacent, NoEmpty;
      var i := 0;
      while i < s_nfree
        invariant 0 <= i && InBounds() && s_nfree <= old(s_nfree)
        invariant Good(Free()) && Bytes(Free()) == old(Bytes(Free())) && (old(NoEmpty(Free())) ==> NoEmpty(Free()))
        invariant Scanned(i, i + 1)
        decreases s_nfree, s_nfree - i
      {
        var restart := MergeAround(i);
        i := if restart then 0 else i + 1;
      }
    }

    /** block is memalign's answer, None for a null pointer. */
    method ArenaGrow(need: nat, block: Option<nat>) returns (ok: bool)
      requires Valid() && (block.Some? ==> FreshBlock(grown, block.value, GrowSize(need)))
      modifies this`s_nfree, this`grown, s_free
      ensures Valid() && ok == CanGrow(old(Snapshot()), block)
      ensures Snapshot() == Grow(old(Snapshot()), GrowSize(need), block)
    {
      hide ArenaRuns.Valid, Bytes, Range;
      ghost var s := Snapshot();
      GrowFacts(s, GrowSize(need), block);
      var bs := GrowSize(need);
      if s_nfree >= MAX_FREE {
        return false;
      }
      if block.None? {
        return false;
      }
      s_free[s_nfree] := Region(block.value, bs);
      s_nfree := s_nfree + 1;
      grown := grown + Range(block.value, bs);
      assert Free() == s.free + [Region(block.value, bs)];
      return true;
    }

    /** The scan of mmap: the first region of at least size bytes gives up its front. */
    method TakeFirstFit(size: nat) returns (result: Option<nat>)
      requires Valid() && size % PAGE_SZ == 0
      modifies this`s_nfree, this`live, s_free
      ensures Valid()
      ensures var t := TakeFirst(old(Snapshot()), size);
              Snapshot() == t.state && result == if t.result.Mapped? then Some(t.result.addr) else None
    {
      hide ArenaRuns.Valid, Bytes, Range, Carve;
      ghost var s := Snapshot();
      if Fits(s.free, size) {
        TakeFacts(s, size);
      }
      TakesIffFits(s, size);
      for i := 0 to s_nfree
        invariant FirstFit(s.free, size, 0) == FirstFit(s.free, size, i)
        invariant unchanged(this) && unchanged(s_free)
      {
        if s_free[i].size >= size {
          result := Some(s_free[i].start);
          live := live + Range(s_free[i].start, size);
          s_free[i] := Region(s_free[i].start + size, s_free[i].size - size);
          if s_free[i].size == 0 {
            s_nfree := s_nfree - 1;
            s_free[i] := s_free[s_nfree];
          }
          CarveIs(s.free, i, size, Free());
          return;
        }
      }
      return None;
    }

    /** block and second are what memalign answers when the free list has to grow for the first and the second time. */
    method Mmap(len: nat, block: Option<nat>, second: Option<nat>) returns (r: MmapResult)
      requires Valid() && len < WORD && Answers(Snapshot(), len, block, second)
      modifies this`s_nfree, this`grown, this`live, s_free
      ensures Valid() && Reply(Snapshot(), r) == ArenaRuns.Mmap(old(Snapshot()), len, block, second)
      ensures len == 0 ==> r == Failed(EINVAL) && Snapshot() == old(Snapshot())
      // failure: no region fits, and the list is full or memalign fails
      ensures len > 0 && !BlockWraps(len) ==>
        (r.Failed? <==> !Fits(old(Free()), PageUp(len)) && !CanGrow(old(Snapshot()), block))
      ensures r.Failed? && !BlockWraps(len) ==> Snapshot() == old(Snapshot())
      // or no block can be that large: whatever memalign answered stays on the list as empty regions
      ensures BlockWraps(len) ==>
        && r.Failed? && live == old(live) && grown == old(grown)
        && Free() == old(Free()) + EmptyBlocks(MAX_FREE - old(s_nfree), block, second)
      ensures len > 0 && r.Failed? ==> r == Failed(ENOMEM)
      // success: page-aligned bytes that were not live become live, none only if the length is beyond the last page
      ensures r.Mapped? ==> r.addr % PAGE_SZ == 0 && Range(r.addr, PageUp(len)) !! old(live)
      ensures r.Mapped? ==> live == old(live) + Range(r.addr, PageUp(len)) && (live == old(live) <==> PageWraps(len))
      ensures r.Mapped? && Fits(old(Free()), PageUp(len)) ==> grown == old(grown) && Range(r.addr, PageUp(len)) <= old(Bytes(Free()))
      ensures r.Mapped? && !Fits(old(Free()), PageUp(len)) ==> block.Some? && r.addr == block.value && grown != old(grown)
      // once coalesced, the list alone serves the call exactly when a contiguous run is free
      ensures Maximal(old(Free())) && 0 < len && !PageWraps(len) ==>
        (r.Mapped? && grown == old(grown) <==> exists a: nat :: Range(a, PageUp(len)) <= old(Bytes(Free())))
      ensures old(NoEmpty(Free())) && !BlockWraps(len) ==> NoEmpty(Free())
    {
      hide ArenaRuns.Valid, ArenaRuns.Mmap, Bytes, Range, Fits, Maximal, NoEmpty, TakeFirst, Grow, FreshBlock, PageUp, GrowSize;
      ghost var s := Snapshot();
      MmapFacts(s, len, block, second);
      if len == 0 {
        return Failed(EINVAL);
      }
      var size := PageUp(len);
      RoundingCases(len);
      var result := MapInTwoAttempts(len, size, block, second);
      if result.None? {
        return Failed(ENOMEM);
      }
      return Mapped(result.value);
    }

    /** The loop of mmap. */
    method MapInTwoAttempts(len: nat, size: nat, block: Option<nat>, second: Option<nat>) returns (result: Option<nat>)
      requires Valid() && 0 < len < WORD && size == PageUp(len) && Answers(Snapshot(), len, block, second)
      modifies this`s_nfree, this`grown, this`live, s_free
      ensures Valid()
      ensures Reply(Snapshot(), if result.Some? then Mapped(result.value) else Failed(ENOMEM))
              == ArenaRuns.Mmap(old(Snapshot()), len, block, second)
    {
      hide ArenaRuns.Valid, Bytes, Range, Fits, FirstFit, FreshBlock, PageUp, GrowSize, TakeFirst, Grow;
      ghost var s, bs := Snapshot(), GrowSize(size);
      ghost var g := Grow(s, bs, block);
      RoundingCases(len);
      StillFresh(s, len, block, second);
      TakesIffFits(s, size);
      TakesIffFits(g, size);
      NoGrowth(s, bs, block);
      result := None;
      var attempt := 0;
      while attempt < 2 && result.None?
        invariant 0 <= attempt <= 2 && Valid()
        invariant attempt == 0 ==> result.None? && Snapshot() == s
        invariant attempt == 1 && result.None? ==> TakeFirst(s, size).result.Failed? && CanGrow(s, block) && Snapshot() == g
        invariant attempt == 2 && result.None? ==> Reply(Snapshot(), Failed(ENOMEM)) == ArenaRuns.Mmap(s, len, block, second)
        invariant result.Some? ==> Reply(Snapshot(), Mapped(result.value)) == ArenaRuns.Mmap(s, len, block, second)
      {
        result := TakeFirstFit(size);
        if result.None? {
          var ok := ArenaGrow(size, if attempt == 0 then block else second);
          if !ok {
            break;
          }
        }
        attempt := attempt + 1;
      }
    }

    method Munmap(addr: nat, len: nat)
      requires Valid() && len < WORD && Returnable(Snapshot(), addr, len)
      modifies this`s_nfree, this`live, this`dropped, s_free
      ensures Valid() && MunmapStep(old(Snapshot()), addr, len, Snapshot())
    {
      hide ArenaRuns.Valid, Accounted, Good, Bytes, Range, NoAdjacent, NoEmpty;
      if addr == 0 || addr == MAP_FAILED || len == 0 {
        return;
      }
      ghost var s := Snapshot();
      var size := PageUp(len);
      RoundingCases(len);
      ghost var gone := Range(addr, size);
      LiveIsNotFree(s, gone);
      live := live - gone;
      if s_nfree < MAX_FREE {
        AppendKeepsGood(s.free, Region(addr, size));
        AppendNoEmpty(s.free, Region(addr, size));
        s_free[s_nfree] := Region(addr, size);
        s_nfree := s_nfree + 1;
        assert Free() == s.free + [Region(addr, size)];
        Coalesce();
      } else {
        dropped := dropped + gone;
      }
      MunmapKeepsValid(s, addr, len, Snapshot());
    }

    /** Conservation: bytes grown = bytes on the list + live + dropped. */
    lemma Accounting()
      requires Valid()
      ensures |grown| == TotalSize(Free()) + |live| + |dropped|
    {
      BytesCount(Free());
      AccountSize(grown, Bytes(Free()), live, dropped);
    }
  }

  /** What a call on the arena answers, as the steps say it. */
  ghost predicate AnswersAs(s: State, call: Call, r: MmapResult) {
    call.CallMmap? ==> r == ArenaRuns.Mmap(s, call.len, call.block, call.second).result
  }

  method Perform(arena: Arena, call: Call) returns (r: MmapResult)
    requires arena.Valid() && Allowed(arena.Snapshot(), call)
    modifies arena, arena.s_free
    ensures arena.Valid() && Step(old(arena.Snapshot()), call, arena.Snapshot())
    ensures AnswersAs(old(arena.Snapshot()), call, r)
  {
    hide ArenaRuns.Valid, ArenaRuns.Mmap, MunmapStep, Answers, Returnable;
    r := Failed(EINVAL);
    match call
    case CallMmap(len, block, second) => r := arena.Mmap(len, block, second);
    case CallMunmap(addr, len) => arena.Munmap(addr, len);
  }

  /** A sequence of calls on the arena is a run of the steps, and answers as they do. */
  method Replay(arena: Arena, calls: seq<Call>) returns (ghost states: seq<State>, results: seq<MmapResult>)
    requires arena.Valid() && AllAllowed(arena.Snapshot(), calls)
    modifies arena, arena.s_free
    ensures arena.Valid() && Run(states, calls) && |results| == |calls|
    ensures states[0] == old(arena.Snapshot()) && states[|calls|] == arena.Snapshot()
    ensures forall k :: 0 <= k < |calls| ==> AnswersAs(states[k], calls[k], results[k])
  {
    hide ArenaRuns.Valid, Allowed, Step, AnswersAs, Run, AllAllowed;
    ghost var s := arena.Snapshot();
    states, results := [s], [];
    EmptyRun(s);
    assert calls[..0] == [];
    var i := 0;
    while i < |calls|
      invariant 0 <= i <= |calls| && arena.Valid() && |results| == i && |states| == i + 1 && Run(states, calls[..i])
      invariant states[0] == s && states[i] == arena.Snapshot()
      invariant forall k :: 0 <= k < i ==> AnswersAs(states[k], calls[k], results[k])
    {
      NextAllowed(s, calls, states, i);
      var r := Perform(arena, calls[i]);
      ExtendRun(states, calls[..i], calls[i], arena.Snapshot());
      assert calls[..i] + [calls[i]] == calls[..i + 1];
      states, results := states + [arena.Snapshot()], results + [r];
      i := i + 1;
    }
    assert calls[..|calls|] == calls;
  }

  /** What the specification of mmap promises, gathered from the three ranges of lengths. */
  lemma MmapFacts(s: State, len: nat, block: Option<nat>, second: Option<nat>)
    requires ArenaRuns.Valid(s) && len < WORD && Answers(s, len, block, second)
    ensures var t := ArenaRuns.Mmap(s, len, block, second);
            var size, fits := PageUp(len), Fits(s.free, PageUp(len));
            && ArenaRuns.Valid(t.state) && t.state.dropped == s.dropped
            && (len == 0 ==> t == Reply(s, Failed(EINVAL)))
            && (len > 0 && !BlockWraps(len) ==> (t.result.Failed? <==> !fits && !CanGrow(s, block)))
            && (t.result.Failed? && !BlockWraps(len) ==> t.state == s)
            && (BlockWraps(len) ==> t == Reply(s.(free := s.free + EmptyBlocks(MAX_FREE - |s.free|, block, second)), Failed(ENOMEM)))
            && (len > 0 && t.result.Failed? ==> t.result == Failed(ENOMEM))
            && (t.result.Mapped? ==> t.result.addr % PAGE_SZ == 0 && Range(t.result.addr, size) !! s.live
                                     && t.state.live == s.live + Range(t.result.addr, size)
                                     && (t.state.live == s.live <==> PageWraps(len)))
            && (t.result.Mapped? && fits ==> t.state.grown == s.grown && Range(t.result.addr, size) <= Bytes(s.free))
            && (t.result.Mapped? && !fits ==> block.Some? && t.result.addr == block.value && t.state.grown != s.grown)
            && (Maximal(s.free) && 0 < len && !PageWraps(len) ==>
                  (t.result.Mapped? && t.state.grown == s.grown <==> exists a: nat :: Range(a, size) <= Bytes(s.free)))
            && (NoEmpty(s.free) && !BlockWraps(len) ==> NoEmpty(t.state.free))
  {
    hide ArenaRuns.Valid, ArenaRuns.Mmap, Bytes, Range, Fits, Maximal, NoEmpty, TakeFirst, Grow, FreshBlock, PageUp, GrowSize, Answers;
    if len == 0 {
      NothingMapped(s, block, second);
    } else {
      if BlockWraps(len) {
        BlockWrapsFails(s, len, block, second);
      } else {
        MmapServes(s, len, block, second);
      }
      if ArenaRuns.Mmap(s, len, block, second).result.Mapped? {
        MapsWithoutReserving(s, len, block, second);
      }
      if Maximal(s.free) && !PageWraps(len) {
        ServedIffRunIsFree(s, len, block, second);
      }
    }
  }

  /** Growing leaves the second answer fresh: a block is only asked for again if the first one was empty. */
  lemma StillFresh(s: State, len: nat, block: Option<nat>, second: Option<nat>)
    requires ArenaRuns.Valid(s) && 0 < len < WORD && Answers(s, len, block, second)
    ensures var size := PageUp(len);
            var g := Grow(s, GrowSize(size), block);
            TakeFirst(s, size).result.Failed? && CanGrow(s, block) && TakeFirst(g, size).result.Failed? && second.Some? ==>
              FreshBlock(g.grown, second.value, GrowSize(size))
  {
    hide ArenaRuns.Valid, Bytes, Range, FirstFit, FreshBlock, TakeFirst;
    var size := PageUp(len);
    RoundingCases(len);
    if !Fits(s.free, size) && CanGrow(s, block) && !BlockWraps(len) {
      GrownFits(s, size, GrowSize(size), block);
    }
    TakesIffFits(s, size);
    GrowFacts(s, GrowSize(size), block);
  }

  lemma NoGrowth(s: State, bs: nat, block: Option<nat>)
    ensures !CanGrow(s, block) ==> Grow(s, bs, block) == s
  {
  }

  lemma LiveIsNotFree(s: State, gone: set<nat>)
    requires ArenaRuns.Valid(s) && gone <= s.live
    ensures Good(s.free) && Bytes(s.free) !! gone
  {
  }

  lemma AppendNoEmpty(rs: seq<Region>, r: Region)
    ensures NoEmpty(rs) && r.size > 0 ==> NoEmpty(rs + [r])
  {
  }

  lemma CarveIs(rs: seq<Region>, i: nat, size: nat, rs': seq<Region>)
    requires i < |rs| && size <= rs[i].size
    requires size == rs[i].size ==> |rs'| == |rs| - 1
    requires size == rs[i].size ==> forall x :: 0 <= x < |rs'| ==> rs'[x] == rs[if x == i then |rs| - 1 else x]
    requires size < rs[i].size ==> rs' == rs[i := Region(rs[i].start + size, rs[i].size - size)]
    ensures rs' == Carve(rs, i, size)
  {
  }

  lemma NotAdjacent(r: Region, s: Region)
    requires r.End() != s.start && s.End() != r.start
    ensures !Adjacent(r, s)
  {
  }

  lemma MergeIs(rs: seq<Region>, keep: nat, drop: nat, rs': seq<Region>)
    requires keep < |rs| && drop < |rs| && keep != drop && |rs'| == |rs| - 1
    requires forall x :: 0 <= x < |rs'| ==>
      rs'[x] == var y := if x == drop then |rs| - 1 else x;
                if y == keep then Region(rs[keep].start, rs[keep].size + rs[drop].size) else rs[y]
    ensures rs' == Merge(rs, keep, drop)
  {
  }

  /** Growing region i at its end cannot make it adjacent to a region that neither part was adjacent to. */
  lemma MergeForward(rs: seq<Region>, i: nat, j: nat)
    requires i < j < |rs| && rs[i].End() == rs[j].start
    requires forall a, b :: 0 <= a < i && a < b < |rs| ==> !Adjacent(rs[a], rs[b])
    ensures var rs' := Merge(rs, i, j);
            forall a, b :: 0 <= a < i && a < b < |rs'| ==> !Adjacent(rs'[a], rs'[b])
  {
    var rs' := Merge(rs, i, j);
    forall a, b | 0 <= a < i && a < b < |rs'|
      ensures !Adjacent(rs'[a], rs'[b])
    {
      if b == i {
        assert !Adjacent(rs[a], rs[i]) && !Adjacent(rs[a], rs[j]);
      } else {
        assert !Adjacent(rs[a], rs[if b == j then |rs| - 1 else b]);
      }
    }
  }
}
