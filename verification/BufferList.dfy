/** mozilla::BufferList: a byte sequence in segments, with its iterator. */
module BufferLists {
  import opened BufferSegments

  const SEGMENT_ALIGNMENT: nat := 8

  function Min(a: nat, b: nat): nat {
    if a < b then a else b
  }

  class BufferList {
    const mOwning: bool
    const mStandardCapacity: nat
    var mSegments: seq<Segment>
    var mSize: nat

    /** What every operation keeps: capacities suffice and the cached size is right. */
    ghost predicate Sized()
      reads this
    {
      Fitting(mSegments) && mSize == |Contents(mSegments)|
    }

    /** What iterators need besides: no segment without capacity, and an empty segment only alone. */
    ghost predicate Valid()
      reads this
    {
      Sized() && Good(mSegments)
    }

    ghost function Bytes(): seq<char>
      reads this
    {
      Contents(mSegments)
    }

    constructor (owning: bool, standardCapacity: nat)
      ensures Valid() && Bytes() == [] && mSegments == []
      ensures mOwning == owning && mStandardCapacity == standardCapacity
    {
      mOwning, mStandardCapacity := owning, standardCapacity;
      mSegments := [];
      mSize := 0;
    }

    method Clear()
      modifies this
      ensures Valid() && mSegments == [] && Bytes() == []
    {
      mSegments := [];
      mSize := 0;
    }

    /** mallocOk: both the allocation and the append to the segment vector succeed. */
    method AllocateSegment(size: nat, capacity: nat, mallocOk: bool) returns (ok: bool)
      requires Sized() && mOwning && size <= capacity
      modifies this
      ensures Sized() && ok == mallocOk
      ensures old(Valid()) ==> (Valid() <==> !ok || (capacity > 0 && Joins(old(mSegments), size)))
      ensures !ok ==> mSegments == old(mSegments)
      ensures ok ==> mSegments == old(mSegments) + [Segment(seq(size, _ => '\0'), capacity)]
    {
      if !mallocOk {
        return false;
      }
      var s := Segment(seq(size, _ => '\0'), capacity);
      ContentsAppend(mSegments, s);
      if Good(mSegments) {
        AppendIsGood(mSegments, s);
      }
      mSegments := mSegments + [s];
      mSize := mSize + size;
      return true;
    }

    method Init(initialSize: nat, initialCapacity: nat, mallocOk: bool) returns (ok: bool)
      requires Valid() && mOwning && mSegments == []
      requires initialCapacity % SEGMENT_ALIGNMENT == 0 && initialSize <= initialCapacity
      modifies this
      ensures Sized() && ok == mallocOk && (Valid() <==> !ok || initialCapacity > 0)
      ensures mSegments == if ok then [Segment(seq(initialSize, _ => '\0'), initialCapacity)] else []
    {
      ok := AllocateSegment(initialSize, initialCapacity, mallocOk);
    }

    /** Unused capacity at the end of the last segment. */
    function Room(): nat
      reads this
    {
      if mSegments == [] || |mSegments[|mSegments| - 1].data| > mSegments[|mSegments| - 1].capacity then 0
      else mSegments[|mSegments| - 1].capacity - |mSegments[|mSegments| - 1].data|
    }

    /** budget: how many more segment allocations will succeed. The bytes handed out are not initialised. */
    method AllocateBytes(maxSize: nat, budget: nat) returns (ok: bool, size: nat, budget': nat)
      requires Valid() && mOwning && mStandardCapacity > 0 && maxSize > 0
      modifies this
      ensures Valid()
      ensures ok == (old(Room()) > 0 || budget > 0)
      ensures !ok ==> mSegments == old(mSegments) && budget' == budget
      ensures ok ==> size == Min(maxSize, if old(Room()) > 0 then old(Room()) else mStandardCapacity)
      ensures ok ==> mSegments != [] && size <= |mSegments[|mSegments| - 1].data| && |Bytes()| == |old(Bytes())| + size
      ensures ok ==> old(Bytes()) <= Bytes()
      ensures ok && old(Room()) > 0 ==> budget' == budget && Room() == old(Room()) - size
      ensures ok && old(Room()) == 0 ==> budget' == budget - 1 && Room() == mStandardCapacity - size
    {
      budget' := budget;
      size := 0;
      if mSegments != [] {
        var n := |mSegments| - 1;
        var last := mSegments[n];
        var capacity := last.capacity - |last.data|;
        if capacity != 0 {
          size := Min(maxSize, capacity);
          var s := Segment(last.data + seq(size, _ => '\0'), last.capacity);
          ContentsSetLast(mSegments, s);
          ContentsDropLast(mSegments);
          assert Contents(mSegments[n := s]) == Bytes() + seq(size, _ => '\0');
          mSegments := mSegments[n := s];
          mSize := mSize + size;
          return true, size, budget';
        }
      }
      size := Min(maxSize, mStandardCapacity);
      ContentsAppend(mSegments, Segment(seq(size, _ => '\0'), mStandardCapacity));
      ok := AllocateSegment(size, mStandardCapacity, budget > 0);
      if ok {
        budget' := budget - 1;
      }
    }

    /** memcpy into the bytes AllocateBytes has just handed out. */
    method FillTail(bytes: seq<char>)
      requires Valid() && mSegments != [] && |bytes| <= |mSegments[|mSegments| - 1].data|
      modifies this`mSegments
      ensures Valid() && Bytes() == old(Bytes())[..|old(Bytes())| - |bytes|] + bytes && Room() == old(Room())
    {
      var n := |mSegments| - 1;
      var last := mSegments[n];
      var s := Segment(last.data[..|last.data| - |bytes|] + bytes, last.capacity);
      ContentsSetLast(mSegments, s);
      ContentsDropLast(mSegments);
      assert Contents(mSegments[n := s]) == Bytes()[..|Bytes()| - |bytes|] + bytes;
      mSegments := mSegments[n := s];
    }

    /** Appends data, or as much of it as fits before an allocation fails. */
    method WriteBytes(data: seq<char>, budget: nat) returns (ok: bool)
      requires Valid() && mOwning && mStandardCapacity > 0
      modifies this
      ensures Valid()
      ensures ok == (|data| <= old(Room()) + budget * mStandardCapacity)
      ensures Bytes() == old(Bytes()) + data[..Min(|data|, old(Room()) + budget * mStandardCapacity)]
    {
      hide Contents, Good;
      var copied := 0;
      var left: nat := budget;
      ghost var total := Room() + budget * mStandardCapacity;
      while copied < |data|
        invariant Valid() && copied <= |data|
        invariant Bytes() == old(Bytes()) + data[..copied]
        invariant Room() + left * mStandardCapacity == total - copied
        decreases |data| - copied
      {
        ghost var before, room := Bytes(), Room();
        var gotBytes, toCopy, left' := AllocateBytes(|data| - copied, left);
        if !gotBytes {
          assert left * mStandardCapacity == 0;
          return false;
        }
        OneLess(left, mStandardCapacity);
        FillTail(data[copied..copied + toCopy]);
        assert Bytes() == before + data[copied..copied + toCopy];
        assert data[..copied] + data[copied..copied + toCopy] == data[..copied + toCopy];
        left := left';
        copied := copied + toCopy;
        NonNegative(left, mStandardCapacity);
      }
      NonNegative(left, mStandardCapacity);
      return true;
    }

    /** Takes over a caller's buffer as a segment of its own. Empty buffers are dropped, but nothing is
        done about an empty segment that is there already. */
    method WriteBytesZeroCopy(data: seq<char>, capacity: nat, appendOk: bool) returns (ok: bool)
      requires Sized() && mOwning && |data| <= capacity
      modifies this
      ensures Sized() && ok == (data == [] || appendOk)
      ensures old(Valid()) ==> (Valid() <==> data == [] || !ok || Joins(old(mSegments), |data|))
      ensures mSegments == old(mSegments) + if data != [] && ok then [Segment(data, capacity)] else []
      ensures Bytes() == if ok then old(Bytes()) + data else old(Bytes())
    {
      if data == [] {
        return true;
      }
      if !appendOk {
        return false;
      }
      ContentsAppend(mSegments, Segment(data, capacity));
      if Good(mSegments) {
        AppendIsGood(mSegments, Segment(data, capacity));
      }
      mSegments := mSegments + [Segment(data, capacity)];
      mSize := mSize + |data|;
      return true;
    }

    /** One segment large enough for everything in other. For an empty source it has no capacity, which
        Init asserts against in debug builds only. */
    method CopyFrom(other: BufferList, mallocOk: bool) returns (ok: bool)
      requires mOwning && other != this && other.Sized()
      modifies this
      ensures Sized() && ok == mallocOk && (Valid() <==> !ok || other.Bytes() != [])
      ensures Bytes() == if ok then other.Bytes() else []
      ensures if ok then |mSegments| == 1 else mSegments == []
    {
      hide Contents, Good, Fitting, Upto;
      Clear();
      var capacity := (other.mSize + SEGMENT_ALIGNMENT - 1) / SEGMENT_ALIGNMENT * SEGMENT_ALIGNMENT;
      ok := Init(other.mSize, capacity, mallocOk);
      if !ok {
        return;
      }
      OneSegment(mSegments);
      UptoNothing(other.mSegments);
      var offset := 0;
      for i := 0 to |other.mSegments|
        invariant |mSegments| == 1 && mSegments[0].capacity == capacity && |mSegments[0].data| == other.mSize == mSize
        invariant offset == |Upto(other.mSegments, i)| <= other.mSize
        invariant Upto(other.mSegments, i) <= mSegments[0].data
      {
        var bytes := other.mSegments[i].data;
        UptoGrows(other.mSegments, i + 1, |other.mSegments|);
        ContentsLength(other.mSegments);
        var d := mSegments[0].data;
        CopySegment(other.mSegments, i, d);
        mSegments := [Segment(d[..offset] + bytes + d[offset + |bytes|..], capacity)];
        offset := offset + |bytes|;
      }
      ContentsLength(other.mSegments);
      OneSegment(mSegments);
    }

    /** Discards everything from the iterator on and leaves it at the new end. */
    method Truncate(iter: IterImpl) returns (discarded: nat)
      requires Valid() && ValidPos(mSegments, iter.At())
      modifies this, iter
      ensures old(iter.mAbsoluteOffset) <= |old(Bytes())|
      ensures Valid() && Bytes() == old(Bytes())[..old(iter.mAbsoluteOffset)]
      ensures discarded == |old(Bytes())| - old(iter.mAbsoluteOffset)
      ensures ValidPos(mSegments, iter.At()) && DonePos(iter.At()) && iter.mAbsoluteOffset == old(iter.mAbsoluteOffset)
    {
      hide Contents, Upto;
      PosInContents(mSegments, iter.At());
      if iter.Done() {
        return 0;
      }
      var prevSize := mSize;
      ghost var segs, p := mSegments, iter.At();
      while |mSegments| > iter.mSegment + 1
        invariant Good(mSegments) && mSize == |Contents(mSegments)|
        invariant p.segment < |mSegments| <= |segs| && mSegments == segs[..|mSegments|]
        invariant iter.At() == p
      {
        var toFree := mSegments[|mSegments| - 1];
        ContentsDropLast(mSegments);
        mSize := mSize - |toFree.data|;
        mSegments := mSegments[..|mSegments| - 1];
      }
      CutAt(segs, p, mSegments);
      var n := |mSegments| - 1;
      var seg := mSegments[n];
      var remaining := iter.mDataEnd - iter.mData;
      mSize := mSize - remaining;
      seg := Segment(seg.data[..|seg.data| - remaining], seg.capacity);
      mSegments := mSegments[n := seg];
      if seg.data == [] {
        mSegments := mSegments[..n];
      }
      if mSegments == [] {
        iter.mSegment := 0;
        iter.mData, iter.mDataEnd := 0, 0;
      } else {
        iter.mSegment := |mSegments| - 1;
        iter.mData := |mSegments[|mSegments| - 1].data|;
        iter.mDataEnd := |mSegments[|mSegments| - 1].data|;
      }
      EndPos(mSegments, mSize);
      return prevSize - mSize;
    }

    /** memcpy out, segment by segment; a short read has consumed everything that was left. */
    method ReadBytes(iter: IterImpl, size: nat) returns (ok: bool, data: seq<char>)
      requires Valid() && ValidPos(mSegments, iter.At())
      modifies iter
      ensures ValidPos(mSegments, iter.At())
      ensures ok == (size <= mSize - old(iter.mAbsoluteOffset))
      ensures old(iter.mAbsoluteOffset) <= iter.mAbsoluteOffset <= mSize
      ensures iter.mAbsoluteOffset == if ok then old(iter.mAbsoluteOffset) + size else mSize
      ensures data == Bytes()[old(iter.mAbsoluteOffset)..iter.mAbsoluteOffset]
    {
      hide Contents, Upto, Good, Fitting;
      data := [];
      var remaining: nat := size;
      ghost var start := iter.mAbsoluteOffset;
      PosInContents(mSegments, iter.At());
      while remaining != 0
        invariant ValidPos(mSegments, iter.At())
        invariant start <= iter.mAbsoluteOffset == start + (size - remaining) <= mSize && remaining <= size
        invariant data == Bytes()[start..iter.mAbsoluteOffset]
        decreases remaining
      {
        PosInContents(mSegments, iter.At());
        var toCopy := Min(iter.RemainingInSegment(), remaining);
        if toCopy == 0 {
          return false, data;
        }
        var chunk := iter.Data(this, toCopy);
        data := data + chunk;
        remaining := remaining - toCopy;
        iter.Advance(this, toCopy);
      }
      return true, data;
    }

    /** Appends a segment that a non-empty chunk fills exactly, leaving the cached size to the caller. */
    method AppendChunk(chunk: seq<char>)
      requires AllFilled(mSegments) && chunk != []
      modifies this`mSegments
      ensures AllFilled(mSegments) && Bytes() == old(Bytes()) + chunk
    {
      ContentsAppend(mSegments, Segment(chunk, |chunk|));
      mSegments := mSegments + [Segment(chunk, |chunk|)];
    }

    /** The common step of Borrow and MoveFallible: the next n bytes at the iterator become a segment of the
        result. */
    method PassChunk(iter: IterImpl, n: nat, result: BufferList)
      requires Valid() && ValidPos(mSegments, iter.At()) && result != this
      requires 0 < n <= iter.mDataEnd - iter.mData && AllFilled(result.mSegments)
      modifies iter, result`mSegments
      ensures AllFilled(result.mSegments)
      ensures old(iter.mAbsoluteOffset) + n == iter.mAbsoluteOffset <= mSize
      ensures result.Bytes() == old(result.Bytes()) + Bytes()[old(iter.mAbsoluteOffset)..iter.mAbsoluteOffset]
      ensures iter.At() == Advanced(mSegments, old(iter.At()), n) && ValidPos(mSegments, iter.At())
    {
      hide Contents, Upto, Good, Fitting, AllFilled;
      var chunk := iter.Data(this, n);
      result.AppendChunk(chunk);
      iter.Advance(this, n);
    }

    /** A read-only list over size bytes from the iterator on, with one segment for each one it touches; budget
        bounds the appends that succeed, and so how many segments can be touched. */
    method Borrow(iter: IterImpl, size: nat, budget: nat) returns (result: BufferList, success: bool)
      requires Valid() && ValidPos(mSegments, iter.At())
      modifies iter
      ensures fresh(result) && !result.mOwning && result.mStandardCapacity == 0 && ValidPos(mSegments, iter.At())
      ensures success <==> size == 0 || old(iter.mAbsoluteOffset) + size <= old(Reach(mSegments, iter.mSegment, budget))
      ensures success ==> size <= mSize - old(iter.mAbsoluteOffset)
      ensures success ==> result.Valid() && result.Bytes() == Bytes()[old(iter.mAbsoluteOffset)..old(iter.mAbsoluteOffset) + size]
      ensures success ==> iter.mAbsoluteOffset == old(iter.mAbsoluteOffset) + size
      ensures budget >= |mSegments| && size <= mSize - old(iter.mAbsoluteOffset) ==> success
    {
      hide Contents, Upto, Good, Fitting, AllFilled, Reach, ValidPos;
      result := new BufferList(false, 0);
      NothingFilled();
      var remaining: nat := size;
      var appends := 0;
      ghost var start := iter.mAbsoluteOffset;
      ghost var first := iter.mSegment;
      PosInContents(mSegments, iter.At());
      while remaining != 0
        invariant fresh(result) && result != this && ValidPos(mSegments, iter.At())
        invariant start <= iter.mAbsoluteOffset == start + (size - remaining) <= mSize && remaining <= size
        invariant AllFilled(result.mSegments)
        invariant result.Bytes() == Bytes()[start..iter.mAbsoluteOffset]
        invariant remaining == 0 || iter.mSegment == first + appends || DonePos(iter.At())
        invariant appends <= budget
        invariant if appends == 0 then remaining == size else iter.mAbsoluteOffset <= Reach(mSegments, first, budget)
        decreases remaining
      {
        PosInContents(mSegments, iter.At());
        var toAdvance := Min(remaining, iter.RemainingInSegment());
        if toAdvance == 0 || appends >= budget {
          PastReach(mSegments, iter.At(), first, budget);
          success := false;
          return;
        }
        WithinReach(mSegments, iter.At(), first, budget);
        ghost var at := iter.mAbsoluteOffset;
        PassChunk(iter, toAdvance, result);
        assert Bytes()[start..at] + Bytes()[at..iter.mAbsoluteOffset] == Bytes()[start..iter.mAbsoluteOffset];
        appends := appends + 1;
        remaining := remaining - toAdvance;
      }
      AllFilledIsGood(result.mSegments);
      result.mSize := size;
      success := true;
    }

    /** Hands every segment to a new list; if an append fails, this list keeps them all. */
    method MoveFallible(budget: nat) returns (result: BufferList, success: bool)
      requires Valid()
      modifies this
      ensures fresh(result) && result.mOwning && result.mStandardCapacity == mStandardCapacity && Valid() && result.Valid()
      ensures success ==> result.Bytes() == old(Bytes()) && mSegments == []
      ensures !success ==> result.mSegments == [] && mSegments == old(mSegments)
      ensures success == (old(Bytes()) == [] || |old(mSegments)| <= budget)
    {
      hide Contents, Upto, Good, Fitting, AllFilled;
      result := new BufferList(true, mStandardCapacity);
      NothingFilled();
      var iter := new IterImpl(this);
      SegmentsFilled(mSegments);
      var appends := 0;
      PosInContents(mSegments, iter.At());
      while !iter.Done()
        invariant fresh(result) && fresh(iter) && result != this && mSegments == old(mSegments) && mSize == old(mSize)
        invariant ValidPos(mSegments, iter.At()) && iter.mAbsoluteOffset <= mSize
        invariant AllFilled(result.mSegments)
        invariant result.Bytes() == Bytes()[..iter.mAbsoluteOffset]
        invariant if iter.Done() then (Bytes() == [] && appends == 0) || appends == |mSegments| else appends == iter.mSegment
        invariant iter.mData == 0 || iter.Done()
        invariant appends <= budget
        decreases mSize - iter.mAbsoluteOffset
      {
        PosInContents(mSegments, iter.At());
        var toAdvance := iter.RemainingInSegment();
        if toAdvance == 0 || appends >= budget {
          success := false;
          result.mSegments := [];
          result.Clear();
          return;
        }
        PassChunk(iter, toAdvance, result);
        appends := appends + 1;
        PosInContents(mSegments, iter.At());
      }
      PosInContents(mSegments, iter.At());
      AllFilledIsGood(result.mSegments);
      result.mSize := mSize;
      Clear();
      success := true;
    }
  }

  class IterImpl {
    var mSegment: nat
    var mData: nat
    var mDataEnd: nat
    var mAbsoluteOffset: nat

    function At(): Pos
      reads this
    {
      Pos(mSegment, mData, mDataEnd, mAbsoluteOffset)
    }

    constructor (list: BufferList)
      ensures At().offset == 0 && At().data == 0 && At().segment == 0
      ensures Done() <==> list.mSegments == [] || list.mSegments[0].data == []
      ensures list.Valid() ==> ValidPos(list.mSegments, At()) && (Done() <==> list.Bytes() == [])
    {
      mSegment := 0;
      mData := 0;
      mDataEnd := if list.mSegments != [] then |list.mSegments[0].data| else 0;
      mAbsoluteOffset := 0;
      new;
      if list.Valid() {
        PosInContents(list.mSegments, At());
      }
    }

    predicate Done()
      reads this
    {
      mData == mDataEnd
    }

    function RemainingInSegment(): nat
      requires mData <= mDataEnd
      reads this
    {
      mDataEnd - mData
    }

    /** The next n bytes of the current segment. */
    method Data(list: BufferList, n: nat) returns (bytes: seq<char>)
      requires list.Valid() && ValidPos(list.mSegments, At()) && 0 < n <= mDataEnd - mData
      ensures mAbsoluteOffset + n <= list.mSize
      ensures bytes == list.Bytes()[mAbsoluteOffset..mAbsoluteOffset + n]
    {
      ChunkAt(list.mSegments, At(), n);
      return list.mSegments[mSegment].data[mData..mData + n];
    }

    method Advance(list: BufferList, n: nat)
      requires list.Valid() && list.mSegments != [] && ValidPos(list.mSegments, At())
      requires n <= mDataEnd - mData
      modifies this
      ensures At() == Advanced(list.mSegments, old(At()), n)
      ensures ValidPos(list.mSegments, At()) && mAbsoluteOffset == old(mAbsoluteOffset) + n
    {
      hide Contents;
      AdvancedValid(list.mSegments, At(), n);
      mData := mData + n;
      mAbsoluteOffset := mAbsoluteOffset + n;
      if mData == mDataEnd && mSegment + 1 < |list.mSegments| {
        mSegment := mSegment + 1;
        var nextSegment := list.mSegments[mSegment];
        mData := 0;
        mDataEnd := |nextSegment.data|;
      }
    }

    method AdvanceAcrossSegments(list: BufferList, n: nat) returns (ok: bool)
      requires list.Valid() && list.mSegments != [] && ValidPos(list.mSegments, At())
      modifies this
      ensures ok == (n <= list.mSize - old(mAbsoluteOffset))
      ensures ok ==> At() == Walk(list.mSegments, old(At()), n)
      ensures !ok ==> At() == old(At())
    {
      hide Contents, Upto;
      ghost var segs, p := list.mSegments, At();
      PosInContents(segs, p);
      if n <= RemainingInSegment() {
        Advance(list, n);
        WalkMeets(segs, p, n, At());
        return true;
      }
      if list.mSize - mAbsoluteOffset < n {
        return false;
      }
      var targetOffset := mAbsoluteOffset + n;
      var fromEnd := list.mSize - targetOffset;
      if n - RemainingInSegment() < fromEnd {
        while mAbsoluteOffset < targetOffset
          invariant ValidPos(segs, At()) && mAbsoluteOffset <= targetOffset
          decreases targetOffset - mAbsoluteOffset
        {
          PosInContents(segs, At());
          Advance(list, Min(targetOffset - mAbsoluteOffset, RemainingInSegment()));
        }
        WalkMeets(segs, p, n, At());
        return true;
      }
      mSegment := |list.mSegments| - 1;
      LastUpto(segs);
      while fromEnd > |list.mSegments[mSegment].data|
        invariant mSegment < |segs| && fromEnd <= |Upto(segs, mSegment + 1)|
        invariant |Upto(segs, mSegment + 1)| - fromEnd == targetOffset
        invariant mSegment + 1 < |segs| ==> fromEnd > 0
        decreases mSegment
      {
        UptoStep(segs, mSegment);
        fromEnd := fromEnd - |list.mSegments[mSegment].data|;
        mSegment := mSegment - 1;
      }
      UptoStep(segs, mSegment);
      mDataEnd := |list.mSegments[mSegment].data|;
      mData := mDataEnd - fromEnd;
      mAbsoluteOffset := targetOffset;
      WalkMeets(segs, p, n, At());
      return true;
    }
  }

  /** A segment of that size may be appended without an empty segment beside another one. */
  ghost predicate Joins(segs: seq<Segment>, size: nat) {
    segs == [] || (size > 0 && segs[|segs| - 1].data != [])
  }

  /** Two calls that break the iterators: a list opened with an empty segment takes over a buffer as its
      second one, and a new iterator is done although every byte of the buffer is still to come. */
  method EmptySegmentHidesBytes(data: seq<char>, capacity: nat) returns (list: BufferList, iter: IterImpl)
    requires 0 < |data| <= capacity
    ensures list.Sized() && list.Bytes() == data && iter.At().offset == 0
    ensures iter.Done() && !list.Valid() && !ValidPos(list.mSegments, iter.At())
  {
    list := new BufferList(true, 8);
    var ok := list.Init(0, 8, true);
    ContentsLength(list.mSegments);
    ok := list.WriteBytesZeroCopy(data, capacity, true);
    iter := new IterImpl(list);
  }

  lemma UptoNothing(segs: seq<Segment>)
    ensures Upto(segs, 0) == []
  {
  }

  /** Copying segment i after those before it. */
  lemma CopySegment(segs: seq<Segment>, i: nat, d: seq<char>)
    requires i < |segs| && Upto(segs, i) <= d && |Upto(segs, i + 1)| <= |d|
    ensures var offset, bytes := |Upto(segs, i)|, segs[i].data;
            && offset + |bytes| == |Upto(segs, i + 1)|
            && Upto(segs, i + 1) <= d[..offset] + bytes + d[offset + |bytes|..]
  {
    assert Upto(segs, i + 1) == Upto(segs, i) + segs[i].data;
    assert d[..|Upto(segs, i)|] == Upto(segs, i);
  }

  lemma LastUpto(segs: seq<Segment>)
    ensures Contents(segs) == Upto(segs, |segs|)
  {
  }

  lemma UptoStep(segs: seq<Segment>, k: nat)
    requires k < |segs|
    ensures |Upto(segs, k + 1)| == |Upto(segs, k)| + |segs[k].data|
    ensures |Upto(segs, 0)| == 0
  {
  }

  /** After the later segments are gone the iterator's bytes are the tail of the last one. */
  lemma CutAt(segs: seq<Segment>, p: Pos, cut: seq<Segment>)
    requires Good(segs) && segs != [] && ValidPos(segs, p) && !DonePos(p)
    requires cut == segs[..p.segment + 1]
    ensures |Contents(cut)| == p.offset + (p.dataEnd - p.data)
    ensures p.offset <= |Contents(segs)|
    ensures var n := p.segment;
            var kept := Segment(cut[n].data[..p.data], cut[n].capacity);
            && Contents(cut[n := kept]) == Contents(segs)[..p.offset]
            && (p.data == 0 ==> Contents(cut[n := kept][..n]) == Contents(segs)[..p.offset] && Good(cut[n := kept][..n]))
            && (p.data > 0 ==> Good(cut[n := kept]))
  {
    var n := p.segment;
    var kept := Segment(cut[n].data[..p.data], cut[n].capacity);
    UptoSame(segs, cut, n);
    ContentsDropLast(cut);
    ContentsSetLast(cut, kept);
    UptoGrows(segs, n + 1, |segs|);
    assert Upto(segs, n + 1) == Upto(segs, n) + segs[n].data;
    assert Contents(segs)[..p.offset] == Upto(segs, n + 1)[..p.offset];
    ContentsDropLast(cut[n := kept]);
  }

  lemma EndPos(segs: seq<Segment>, size: nat)
    requires size == |Contents(segs)|
    ensures segs == [] ==> size == 0
    ensures segs != [] ==> size == |Upto(segs, |segs| - 1)| + |segs[|segs| - 1].data|
  {
  }

  ghost predicate AllFilled(segs: seq<Segment>) {
    forall i :: 0 <= i < |segs| ==> 0 < |segs[i].data| <= segs[i].capacity
  }

  lemma SegmentsFilled(segs: seq<Segment>)
    requires Good(segs)
    ensures |segs| > 1 ==> forall i :: 0 <= i < |segs| ==> segs[i].data != []
  {
  }

  lemma NothingFilled()
    ensures AllFilled([]) && Good([]) && Contents([]) == []
  {
  }

  lemma AllFilledIsGood(segs: seq<Segment>)
    requires AllFilled(segs)
    ensures Good(segs)
  {
  }

  lemma OneLess(n: nat, c: nat)
    ensures n > 0 ==> n * c == (n - 1) * c + c
  {
  }

  lemma NonNegative(n: nat, c: nat)
    ensures n * c >= 0
  {
  }

  lemma ContentsLength(segs: seq<Segment>)
    ensures Contents(segs) == Upto(segs, |segs|)
  {
  }

  lemma OneSegment(segs: seq<Segment>)
    requires |segs| == 1
    ensures Contents(segs) == segs[0].data
    ensures |segs[0].data| <= segs[0].capacity ==> Fitting(segs) && (Good(segs) <==> segs[0].capacity > 0)
  {
    assert Upto(segs, 1) == Upto(segs, 0) + segs[0].data;
  }
}
