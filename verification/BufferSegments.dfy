/** Segmented byte sequences and positions in them, as values: what mozilla::BufferList and its
    iterator mean. */
module BufferSegments {

  /** A segment's bytes; size is their number, capacity what was allocated for them. */
  datatype Segment = Segment(data: seq<char>, capacity: nat)

  /** The bytes of the first k segments. */
  ghost function Upto(segs: seq<Segment>, k: nat): seq<char>
    requires k <= |segs|
  {
    if k == 0 then [] else Upto(segs, k - 1) + segs[k - 1].data
  }

  ghost function Contents(segs: seq<Segment>): seq<char> {
    Upto(segs, |segs|)
  }

  ghost predicate Fitting(segs: seq<Segment>) {
    forall i :: 0 <= i < |segs| ==> |segs[i].data| <= segs[i].capacity
  }

  /** Every segment has capacity enough, and an empty one stands only alone. */
  ghost predicate Good(segs: seq<Segment>) {
    && Fitting(segs)
    && (forall i :: 0 <= i < |segs| ==> segs[i].capacity > 0)
    && (forall i :: 0 <= i < |segs| && |segs| > 1 ==> segs[i].data != [])
  }

  /** Appending a segment leaves the list good unless one of the two at the seam is empty. */
  lemma AppendIsGood(segs: seq<Segment>, s: Segment)
    requires Good(segs) && |s.data| <= s.capacity
    ensures Good(segs + [s]) <==> s.capacity > 0 && (segs == [] || (s.data != [] && segs[|segs| - 1].data != []))
  {
    var all := segs + [s];
    assert all[|segs|] == s && forall i :: 0 <= i < |segs| ==> all[i] == segs[i];
  }

  lemma {:induction false} UptoGrows(segs: seq<Segment>, k: nat, m: nat)
    requires k <= m <= |segs|
    ensures Upto(segs, k) <= Upto(segs, m)
    decreases m
  {
    if k < m {
      UptoGrows(segs, k, m - 1);
    }
  }

  lemma {:induction false} UptoSame(a: seq<Segment>, b: seq<Segment>, k: nat)
    requires k <= |a| && k <= |b| && forall i :: 0 <= i < k ==> a[i].data == b[i].data
    ensures Upto(a, k) == Upto(b, k)
  {
    if k > 0 {
      UptoSame(a, b, k - 1);
    }
  }

  lemma ContentsAppend(segs: seq<Segment>, s: Segment)
    ensures Contents(segs + [s]) == Contents(segs) + s.data
  {
    UptoSame(segs, segs + [s], |segs|);
  }

  lemma ContentsSetLast(segs: seq<Segment>, s: Segment)
    requires segs != []
    ensures Contents(segs[|segs| - 1 := s]) == Upto(segs, |segs| - 1) + s.data
  {
    var n, segs' := |segs| - 1, segs[|segs| - 1 := s];
    UptoSame(segs, segs', n);
    assert Upto(segs', n + 1) == Upto(segs', n) + segs'[n].data;
  }

  lemma ContentsDropLast(segs: seq<Segment>)
    requires segs != []
    ensures Contents(segs[..|segs| - 1]) == Upto(segs, |segs| - 1)
    ensures Contents(segs) == Contents(segs[..|segs| - 1]) + segs[|segs| - 1].data
  {
    UptoSame(segs, segs[..|segs| - 1], |segs| - 1);
  }

  // ----- positions

  /** mSegment, mData and mDataEnd as offsets into that segment, and mAbsoluteOffset. */
  datatype Pos = Pos(segment: nat, data: nat, dataEnd: nat, offset: nat)

  /** The iterator invariant: at the end of a segment only in the last one. */
  ghost predicate ValidPos(segs: seq<Segment>, p: Pos) {
    if segs == [] then p == Pos(0, 0, 0, 0)
    else
      && p.segment < |segs|
      && p.dataEnd == |segs[p.segment].data| && p.data <= p.dataEnd
      && (p.segment + 1 < |segs| ==> p.data < p.dataEnd)
      && p.offset == |Upto(segs, p.segment)| + p.data
  }

  ghost predicate DonePos(p: Pos) {
    p.data == p.dataEnd
  }

  lemma PosInContents(segs: seq<Segment>, p: Pos)
    requires Good(segs) && ValidPos(segs, p)
    ensures p.offset <= |Contents(segs)| && p.data <= p.dataEnd
    ensures segs != [] ==> p.offset - p.data + p.dataEnd <= |Contents(segs)|
    ensures DonePos(p) <==> p.offset == |Contents(segs)|
    ensures segs != [] ==> segs[p.segment].data[p.data..] == Contents(segs)[p.offset..p.offset - p.data + p.dataEnd]
  {
    if segs != [] {
      var k := p.segment;
      UptoGrows(segs, k, k + 1);
      UptoGrows(segs, k + 1, |segs|);
      assert Upto(segs, k + 1) == Upto(segs, k) + segs[k].data;
      assert Contents(segs)[..|Upto(segs, k + 1)|] == Upto(segs, k + 1);
      if k + 1 < |segs| {
        LaterIsLonger(segs, k + 1);
      }
    }
  }

  /** The n bytes at a position are the n bytes of the contents at its offset. */
  lemma ChunkAt(segs: seq<Segment>, p: Pos, n: nat)
    requires Good(segs) && segs != [] && ValidPos(segs, p) && n <= p.dataEnd - p.data
    ensures p.offset + n <= |Contents(segs)|
    ensures segs[p.segment].data[p.data..p.data + n] == Contents(segs)[p.offset..p.offset + n]
  {
    PosInContents(segs, p);
    assert segs[p.segment].data[p.data..p.data + n] == segs[p.segment].data[p.data..][..n];
    assert Contents(segs)[p.offset..p.offset + n] == Contents(segs)[p.offset..p.offset - p.data + p.dataEnd][..n];
  }

  lemma LaterIsLonger(segs: seq<Segment>, k: nat)
    requires Good(segs) && |segs| > 1 && k < |segs|
    ensures |Upto(segs, k)| < |Contents(segs)|
  {
    UptoGrows(segs, k + 1, |segs|);
    assert segs[k].data != [];
  }

  /** An offset has one valid position: landing on a boundary means the start of the next segment. */
  lemma PosUnique(segs: seq<Segment>, p: Pos, q: Pos)
    requires Good(segs) && ValidPos(segs, p) && ValidPos(segs, q) && p.offset == q.offset
    ensures p == q
  {
    if segs != [] {
      if p.segment < q.segment {
        BeforeSegment(segs, p, q.segment);
      } else if q.segment < p.segment {
        BeforeSegment(segs, q, p.segment);
      }
    }
  }

  lemma BeforeSegment(segs: seq<Segment>, p: Pos, k: nat)
    requires segs != [] && ValidPos(segs, p) && p.segment < k < |segs|
    ensures p.offset < |Upto(segs, k)|
  {
    UptoGrows(segs, p.segment + 1, k);
  }

  /** The offset at which the n segments from the given one on end. */
  ghost function Reach(segs: seq<Segment>, from: nat, n: nat): nat {
    if from + n < |segs| then |Upto(segs, from + n)| else |Contents(segs)|
  }

  /** Bytes taken from a segment among those n lie within their reach. */
  lemma WithinReach(segs: seq<Segment>, p: Pos, from: nat, n: nat)
    requires segs != [] && ValidPos(segs, p) && from <= p.segment < from + n
    ensures p.offset - p.data + p.dataEnd <= Reach(segs, from, n)
  {
    var k := p.segment + 1;
    UptoGrows(segs, k, if from + n < |segs| then from + n else |segs|);
    assert Upto(segs, k) == Upto(segs, p.segment) + segs[p.segment].data;
  }

  /** A position past those n segments, or at the end, is at or past their reach. */
  lemma PastReach(segs: seq<Segment>, p: Pos, from: nat, n: nat)
    requires Good(segs) && ValidPos(segs, p) && (DonePos(p) || p.segment == from + n)
    ensures Reach(segs, from, n) <= p.offset
    ensures n >= |segs| ==> Reach(segs, from, n) == |Contents(segs)|
  {
    PosInContents(segs, p);
    if segs != [] && from + n < |segs| {
      UptoGrows(segs, from + n, |segs|);
    }
  }

  /** Advance(n) within a segment, stepping over its end unless it is the last. */
  function Advanced(segs: seq<Segment>, p: Pos, n: nat): Pos {
    if p.data + n == p.dataEnd && p.segment + 1 < |segs| then
      Pos(p.segment + 1, 0, |segs[p.segment + 1].data|, p.offset + n)
    else
      Pos(p.segment, p.data + n, p.dataEnd, p.offset + n)
  }

  lemma AdvancedValid(segs: seq<Segment>, p: Pos, n: nat)
    requires Good(segs) && segs != [] && ValidPos(segs, p) && n <= p.dataEnd - p.data
    ensures ValidPos(segs, Advanced(segs, p, n)) && Advanced(segs, p, n).offset == p.offset + n
  {
  }

  /** n one-byte Advance calls. */
  ghost function Walk(segs: seq<Segment>, p: Pos, n: nat): Pos {
    if n == 0 then p else Advanced(segs, Walk(segs, p, n - 1), 1)
  }

  lemma {:induction false} WalkValid(segs: seq<Segment>, p: Pos, n: nat)
    requires Good(segs) && segs != [] && ValidPos(segs, p) && p.offset + n <= |Contents(segs)|
    ensures ValidPos(segs, Walk(segs, p, n)) && Walk(segs, p, n).offset == p.offset + n
  {
    if n > 0 {
      WalkValid(segs, p, n - 1);
      var q := Walk(segs, p, n - 1);
      PosInContents(segs, q);
      AdvancedValid(segs, q, 1);
    }
  }

  /** A valid position n bytes on is where n one-byte steps lead, however it was found. */
  lemma WalkMeets(segs: seq<Segment>, p: Pos, n: nat, q: Pos)
    requires Good(segs) && segs != [] && ValidPos(segs, p)
    requires ValidPos(segs, q) && q.offset == p.offset + n
    ensures q == Walk(segs, p, n)
  {
    PosInContents(segs, q);
    WalkValid(segs, p, n);
    PosUnique(segs, q, Walk(segs, p, n));
  }
}
