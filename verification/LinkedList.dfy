/**
 * The circular intrusive list of mfbt/LinkedList.h: every list is a ring of
 * nodes through one sentinel, and an unlisted node is a ring of its own.
 */
module LinkedLists {
  import opened Basics

  /** The element at position p of a ring, counting its end as its start. */
  function Wrap(r: seq<Node>, p: int): Node
    requires -1 <= p <= |r| && r != []
  {
    if p == -1 then r[|r| - 1] else if p == |r| then r[0] else r[p]
  }

  ghost predicate RingAt(r: seq<Node>, i: nat)
    requires i < |r|
    reads r
  {
    r[i].next == Wrap(r, i + 1) && r[i].prev == Wrap(r, i - 1)
  }

  /** The nodes of r, in order, link to each other in a circle. */
  ghost predicate Ring(r: seq<Node>)
    reads r
  {
    r != [] && Distinct(r) && forall i :: 0 <= i < |r| ==> RingAt(r, i)
  }

  class Node {
    var next: Node
    var prev: Node
    const isSentinel: bool

    constructor (isSentinel: bool)
      ensures next == prev == this && this.isSentinel == isSentinel
    {
      next, prev := this, this;
      this.isSentinel := isSentinel;
    }

    predicate IsInList()
      reads this
    {
      next != this
    }

    /** Inserts e after this node, the one before position p. */
    method SetNextUnsafe(e: Node, ghost r: seq<Node>, ghost p: nat)
      requires Ring(r) && 1 <= p <= |r| && this == r[p - 1] && !e.IsInList() && e !in r
      modifies r, e
      ensures Ring(r[..p] + [e] + r[p..])
    {
      assert RingAt(r, p - 1);
      e.next := next;
      e.prev := this;
      next.prev := e;
      next := e;
      forall i | 0 <= i < |r|
        ensures InsertedAt(r, p, e, i)
      {
        assert old(RingAt(r, i));
      }
      InsertedRing(r, p, e);
    }

    /** Inserts e before this node, the one at position p. */
    method SetPreviousUnsafe(e: Node, ghost r: seq<Node>, ghost p: nat)
      requires Ring(r) && 1 <= p <= |r| && this == Wrap(r, p) && !e.IsInList() && e !in r
      modifies r, e
      ensures Ring(r[..p] + [e] + r[p..])
    {
      assert RingAt(r, if p == |r| then 0 else p);
      e.next := this;
      e.prev := prev;
      prev.next := e;
      prev := e;
      forall i | 0 <= i < |r|
        ensures InsertedAt(r, p, e, i)
      {
        assert old(RingAt(r, i));
      }
      InsertedRing(r, p, e);
    }

    method Remove(ghost r: seq<Node>, ghost k: nat)
      requires Ring(r) && k < |r| && |r| > 1 && this == r[k]
      modifies r
      ensures Ring(r[..k] + r[k + 1..]) && next == prev == this
    {
      assert RingAt(r, k);
      prev.next := next;
      next.prev := prev;
      next := this;
      prev := this;
      forall i | 0 <= i < |r| && i != k
        ensures RemovedAt(r, k, i)
      {
        assert old(RingAt(r, i));
      }
      RemovedRing(r, k);
    }

    /** Takes the place of other, or becomes unlisted if other is unlisted. */
    method AdjustLinkForMove(other: Node, ghost r: seq<Node>, ghost k: nat)
      requires Ring(r) && k < |r| && other == r[k] && this !in r
      modifies this, r
      ensures if |r| == 1 then next == prev == this else Ring(r[k := this])
      ensures other.next == other.prev == other
    {
      assert RingAt(r, k);
      if !other.IsInList() {
        next := this;
        prev := this;
        return;
      }
      next := other.next;
      prev := other.prev;
      next.prev := this;
      prev.next := this;
      other.next := other;
      other.prev := other;
      forall i | 0 <= i < |r| && i != k
        ensures ReplacedAt(r, k, this, i)
      {
        assert old(RingAt(r, i));
      }
      ReplacedRing(r, k, this);
    }

    /** Moves the nodes from begin up to end, positions b to e of another ring, before this node, at position p. */
    method TransferBeforeUnsafe(begin: Node, end: Node, ghost r: seq<Node>, ghost p: nat,
                                ghost q: seq<Node>, ghost b: nat, ghost e: nat)
      requires Ring(r) && Ring(q) && Apart(r, q) && 1 <= p <= |r| && 1 <= b < e <= |q|
      requires this == Wrap(r, p) && begin == q[b] && end == Wrap(q, e) && !begin.isSentinel
      modifies r, q
      ensures Ring(r[..p] + q[b..e] + r[p..]) && Ring(q[..b] + q[e..])
    {
      hide Distinct, Apart;
      ghost var pw, ew := if p == |r| then 0 else p, if e == |q| then 0 else e;
      assert RingAt(r, pw) && RingAt(r, p - 1);
      assert RingAt(q, b) && RingAt(q, ew) && RingAt(q, e - 1);
      FiveApart(r, p, q, b, e);
      Listed(q, b);
      Listed(q, ew);
      if !begin.IsInList() || !end.IsInList() {
        return;
      }
      var otherPrev := begin.prev;
      begin.prev := prev;
      prev.next := begin;
      prev := end.prev;
      end.prev.next := this;
      otherPrev.next := end;
      end.prev := otherPrev;
      forall i | 0 <= i < |r|
        ensures ReceivedAt(r, p, q, b, e, i)
      {
        assert old(RingAt(r, i));
        FiveOther(r, p, q, b, e, i);
      }
      forall i | 0 <= i < |q|
        ensures GivenAt(r, p, q, b, e, i)
      {
        assert old(RingAt(q, i));
        FiveTaken(r, p, q, b, e, i);
      }
      JoinedRing(r, p, q, b, e);
      ClosedRing(r, p, q, b, e);
    }
  }

  predicate Apart(r: seq<Node>, q: seq<Node>) {
    forall i, j :: 0 <= i < |r| && 0 <= j < |q| ==> r[i] != q[j]
  }

  // ----- rings after one change; each link is given by its position in the old ring

  /** The links of r[i] once the node e stands between positions p - 1 and p. */
  ghost predicate InsertedAt(r: seq<Node>, p: nat, e: Node, i: nat)
    requires 1 <= p <= |r| && i < |r|
    reads r
  {
    r[i].next == (if i == p - 1 then e else Wrap(r, i + 1))
    && r[i].prev == (if (if p == |r| then 0 else p) == i then e else Wrap(r, i - 1))
  }

  lemma InsertedRing(r: seq<Node>, p: nat, e: Node)
    requires Distinct(r) && 1 <= p <= |r| && e !in r
    requires forall i :: 0 <= i < |r| ==> InsertedAt(r, p, e, i)
    requires e.next == Wrap(r, p) && e.prev == r[p - 1]
    ensures Ring(r[..p] + [e] + r[p..])
  {
    var t := r[..p] + [e] + r[p..];
    forall i | 0 <= i < |t|
      ensures RingAt(t, i)
    {
      if i < p {
        assert InsertedAt(r, p, e, i);
      } else if i > p {
        assert InsertedAt(r, p, e, i - 1);
      }
    }
  }

  /** The links of r[i] once r[k] is bypassed. */
  ghost predicate RemovedAt(r: seq<Node>, k: nat, i: nat)
    requires k < |r| && i < |r|
    reads r
  {
    r[i].next == (if Wrap(r, i + 1) == r[k] then Wrap(r, k + 1) else Wrap(r, i + 1))
    && r[i].prev == (if Wrap(r, i - 1) == r[k] then Wrap(r, k - 1) else Wrap(r, i - 1))
  }

  lemma RemovedRing(r: seq<Node>, k: nat)
    requires Distinct(r) && k < |r| && |r| > 1
    requires forall i :: 0 <= i < |r| && i != k ==> RemovedAt(r, k, i)
    ensures Ring(r[..k] + r[k + 1..])
  {
    var t := r[..k] + r[k + 1..];
    forall i | 0 <= i < |t|
      ensures RingAt(t, i)
    {
      assert RemovedAt(r, k, if i < k then i else i + 1);
    }
  }

  /** The links of r[i] once e stands in for r[k]. */
  ghost predicate ReplacedAt(r: seq<Node>, k: nat, e: Node, i: nat)
    requires k < |r| && i < |r|
    reads r
  {
    r[i].next == (if Wrap(r, i + 1) == r[k] then e else Wrap(r, i + 1))
    && r[i].prev == (if Wrap(r, i - 1) == r[k] then e else Wrap(r, i - 1))
  }

  lemma ReplacedRing(r: seq<Node>, k: nat, e: Node)
    requires Distinct(r) && k < |r| && |r| > 1 && e !in r
    requires forall i :: 0 <= i < |r| && i != k ==> ReplacedAt(r, k, e, i)
    requires e.next == Wrap(r, k + 1) && e.prev == Wrap(r, k - 1)
    ensures Ring(r[k := e])
  {
    var t := r[k := e];
    forall i | 0 <= i < |t|
      ensures RingAt(t, i)
    {
      if i != k {
        assert ReplacedAt(r, k, e, i);
      }
    }
  }

  /** The links of r[i], the receiving ring, and of q[i], the giving ring, after q[b..e] has moved before position p. */
  ghost predicate ReceivedAt(r: seq<Node>, p: nat, q: seq<Node>, b: nat, e: nat, i: nat)
    requires 1 <= p <= |r| && 1 <= b < e <= |q| && i < |r|
    reads r
  {
    r[i].next == (if i == p - 1 then q[b] else Wrap(r, i + 1))
    && r[i].prev == (if (if p == |r| then 0 else p) == i then q[e - 1] else Wrap(r, i - 1))
  }

  ghost predicate GivenAt(r: seq<Node>, p: nat, q: seq<Node>, b: nat, e: nat, i: nat)
    requires 1 <= p <= |r| && 1 <= b < e <= |q| && i < |q|
    reads q
  {
    q[i].next == (if i == e - 1 then Wrap(r, p) else if i == b - 1 then Wrap(q, e) else Wrap(q, i + 1))
    && q[i].prev == (if i == b then r[p - 1] else if (if e == |q| then 0 else e) == i then q[b - 1] else Wrap(q, i - 1))
  }

  ghost predicate Transferred(r: seq<Node>, p: nat, q: seq<Node>, b: nat, e: nat)
    reads r, q
  {
    Distinct(r) && Distinct(q) && Apart(r, q) && 1 <= p <= |r| && 1 <= b < e <= |q|
    && (forall i :: 0 <= i < |r| ==> ReceivedAt(r, p, q, b, e, i))
    && (forall i :: 0 <= i < |q| ==> GivenAt(r, p, q, b, e, i))
  }

  lemma Listed(r: seq<Node>, k: nat)
    requires Distinct(r) && 1 < |r| && k < |r| && RingAt(r, k)
    ensures r[k].IsInList()
  {
  }

  ghost predicate Five(r: seq<Node>, p: nat, q: seq<Node>, b: nat, e: nat) {
    Distinct(r) && Distinct(q) && Apart(r, q) && 1 <= p <= |r| && 1 <= b < e <= |q|
  }

  /** Which of the six relinked nodes can coincide. */
  lemma FiveApart(r: seq<Node>, p: nat, q: seq<Node>, b: nat, e: nat)
    requires Five(r, p, q, b, e)
    ensures var d, l := Wrap(r, p), Wrap(q, e);
            r[p - 1] != q[b] && r[p - 1] != q[e - 1] && r[p - 1] != q[b - 1] && r[p - 1] != l
            && d != q[b] && d != q[e - 1] && d != q[b - 1] && d != l
            && q[b] != q[b - 1] && q[b] != l && q[e - 1] != q[b - 1] && q[e - 1] != l
  {
  }

  lemma FiveOther(r: seq<Node>, p: nat, q: seq<Node>, b: nat, e: nat, i: nat)
    requires Five(r, p, q, b, e) && i < |r|
    ensures r[i] != q[b] && r[i] != q[e - 1] && r[i] != q[b - 1] && r[i] != Wrap(q, e)
    ensures (r[i] == r[p - 1] <==> i == p - 1) && (r[i] == Wrap(r, p) <==> i == if p == |r| then 0 else p)
  {
  }

  lemma FiveTaken(r: seq<Node>, p: nat, q: seq<Node>, b: nat, e: nat, i: nat)
    requires Five(r, p, q, b, e) && i < |q|
    ensures q[i] != r[p - 1] && q[i] != Wrap(r, p)
    ensures (q[i] == q[b] <==> i == b) && (q[i] == q[b - 1] <==> i == b - 1)
    ensures (q[i] == q[e - 1] <==> i == e - 1) && (q[i] == Wrap(q, e) <==> i == if e == |q| then 0 else e)
  {
  }

  function Joined(r: seq<Node>, p: nat, q: seq<Node>, b: nat, e: nat): seq<Node>
    requires 1 <= p <= |r| && 1 <= b < e <= |q|
  {
    r[..p] + q[b..e] + r[p..]
  }

  lemma JoinedAt(r: seq<Node>, p: nat, q: seq<Node>, b: nat, e: nat, i: nat)
    requires 1 <= p <= |r| && 1 <= b < e <= |q| && i < |r| + (e - b)
    ensures var t := Joined(r, p, q, b, e);
            |t| == |r| + (e - b) &&
            t[i] == if i < p then r[i] else if i < p + (e - b) then q[i - p + b] else r[i - (e - b)]
  {
  }

  lemma JoinedIsDistinct(r: seq<Node>, p: nat, q: seq<Node>, b: nat, e: nat)
    requires Distinct(r) && Distinct(q) && Apart(r, q) && 1 <= p <= |r| && 1 <= b < e <= |q|
    ensures Distinct(Joined(r, p, q, b, e))
  {
    hide Joined;
    var t := Joined(r, p, q, b, e);
    JoinedAt(r, p, q, b, e, 0);
    forall i, j | 0 <= i < j < |t|
      ensures t[i] != t[j]
    {
      JoinedAt(r, p, q, b, e, i);
      JoinedAt(r, p, q, b, e, j);
    }
  }

  lemma JoinedRing(r: seq<Node>, p: nat, q: seq<Node>, b: nat, e: nat)
    requires Transferred(r, p, q, b, e)
    ensures Ring(Joined(r, p, q, b, e))
  {
    hide Joined, Distinct, Apart;
    var t, n := Joined(r, p, q, b, e), |r| + (e - b);
    JoinedIsDistinct(r, p, q, b, e);
    JoinedAt(r, p, q, b, e, 0);
    forall i | 0 <= i < |t|
      ensures RingAt(t, i)
    {
      JoinedAt(r, p, q, b, e, i);
      JoinedAt(r, p, q, b, e, if i + 1 == n then 0 else i + 1);
      JoinedAt(r, p, q, b, e, if i == 0 then n - 1 else i - 1);
      if i < p {
        assert ReceivedAt(r, p, q, b, e, i);
      } else if i < p + (e - b) {
        assert GivenAt(r, p, q, b, e, i - p + b);
      } else {
        assert ReceivedAt(r, p, q, b, e, i - (e - b));
      }
    }
  }

  lemma ClosedRing(r: seq<Node>, p: nat, q: seq<Node>, b: nat, e: nat)
    requires Transferred(r, p, q, b, e)
    ensures Ring(q[..b] + q[e..])
  {
    hide Apart;
    var u := q[..b] + q[e..];
    forall i | 0 <= i < |u|
      ensures RingAt(u, i)
    {
      assert GivenAt(r, p, q, b, e, if i < b then i else i + (e - b));
    }
  }

  // ----- lists

  class LinkedList {
    const sentinel: Node
    ghost var elems: seq<Node>

    ghost predicate Valid()
      reads this, sentinel, elems
    {
      sentinel.isSentinel && Ring([sentinel] + elems) && forall e :: e in elems ==> !e.isSentinel
    }

    constructor ()
      ensures Valid() && elems == [] && fresh(sentinel)
    {
      sentinel := new Node(true);
      elems := [];
    }

    predicate IsEmpty()
      reads this, sentinel
    {
      !sentinel.IsInList()
    }

    lemma EmptyIsExact()
      requires Valid()
      ensures IsEmpty() <==> elems == []
    {
      assert RingAt([sentinel] + elems, 0);
    }

    /** An unlisted node belongs to no list. */
    lemma UnlistedIsAbsent(e: Node)
      requires Valid() && !e.isSentinel && !e.IsInList()
      ensures e !in [sentinel] + elems
    {
      var r := [sentinel] + elems;
      if e in elems {
        var k :| 0 <= k < |elems| && elems[k] == e;
        assert r[k + 1] == e && RingAt(r, k + 1);
      }
    }

    method InsertFront(e: Node)
      requires Valid() && !e.isSentinel && !e.IsInList()
      modifies this, sentinel, elems, e
      ensures Valid() && elems == [e] + old(elems)
    {
      UnlistedIsAbsent(e);
      ghost var r := [sentinel] + elems;
      sentinel.SetNextUnsafe(e, r, 1);
      elems := [e] + elems;
      assert r[..1] + [e] + r[1..] == [sentinel] + elems;
    }

    method InsertBack(e: Node)
      requires Valid() && !e.isSentinel && !e.IsInList()
      modifies this, sentinel, elems, e
      ensures Valid() && elems == old(elems) + [e]
    {
      UnlistedIsAbsent(e);
      ghost var r := [sentinel] + elems;
      sentinel.SetPreviousUnsafe(e, r, |r|);
      elems := elems + [e];
      assert r[..|r|] + [e] + r[|r|..] == [sentinel] + elems;
    }

    method PopFirst() returns (ret: Node?)
      requires Valid()
      modifies this, sentinel, elems
      ensures Valid()
      ensures old(elems) == [] ==> ret == null && elems == []
      ensures old(elems) != [] ==> ret == old(elems)[0] && elems == old(elems)[1..] && !ret.IsInList()
    {
      ghost var r, s := [sentinel] + elems, elems;
      assert RingAt(r, 0);
      if sentinel.next.isSentinel {
        return null;
      }
      ret := sentinel.next;
      ret.Remove(r, 1);
      elems := s[1..];
      assert r[..1] + r[2..] == [sentinel] + elems;
    }

    method PopLast() returns (ret: Node?)
      requires Valid()
      modifies this, sentinel, elems
      ensures Valid()
      ensures old(elems) == [] ==> ret == null && elems == []
      ensures old(elems) != [] ==>
                ret == old(elems)[|old(elems)| - 1] && elems == old(elems)[..|old(elems)| - 1] && !ret.IsInList()
    {
      ghost var r, s := [sentinel] + elems, elems;
      assert RingAt(r, 0);
      if sentinel.prev.isSentinel {
        return null;
      }
      ret := sentinel.prev;
      ret.Remove(r, |s|);
      elems := s[..|s| - 1];
      assert r[..|s|] + r[|s| + 1..] == [sentinel] + elems;
    }

    method RemoveElement(e: Node)
      requires Valid() && e in elems
      modifies this, sentinel, elems
      ensures Valid() && elems == Without<Node>(old(elems), e) && !e.IsInList()
    {
      hide Ring, Without;
      ghost var r, s := [sentinel] + elems, elems;
      ghost var k :| 0 <= k < |s| && s[k] == e;
      RingIsDistinct(sentinel, s);
      e.Remove(r, k + 1);
      elems := s[..k] + s[k + 1..];
      WithoutAt<Node>(s, k);
      CutRing(sentinel, s, k);
    }

    method Clear()
      requires Valid()
      modifies this, sentinel, elems
      ensures Valid() && elems == []
      ensures forall e :: e in old(elems) ==> !e.IsInList()
    {
      ghost var s, k := elems, 0;
      TailIsDistinct(sentinel, s);
      var popped := PopFirst();
      while popped != null
        invariant Valid() && sentinel !in s && Distinct(s)
        invariant popped != null ==> k < |s| && elems == s[k + 1..]
        invariant popped == null ==> k == |s| && elems == []
        invariant forall j :: 0 <= j < |s| && j <= k ==> !s[j].IsInList()
        decreases |s| - k
      {
        assert forall j :: 0 <= j <= k ==> s[j] !in elems;
        k := k + 1;
        popped := PopFirst();
      }
    }

    /** Takes over the elements of other: the move constructor and move assignment. */
    method MoveFrom(other: LinkedList)
      requires Valid() && elems == [] && other.Valid() && sentinel != other.sentinel
      modifies this, sentinel, other, other.sentinel, other.elems
      ensures Valid() && elems == old(other.elems) && other.Valid() && other.elems == []
    {
      Separate(other);
      ghost var r, s := [other.sentinel] + other.elems, other.elems;
      sentinel.AdjustLinkForMove(other.sentinel, r, 0);
      elems, other.elems := s, [];
      assert r[0 := sentinel] == [sentinel] + elems;
      if s == [] {
        assert [sentinel] + elems == [sentinel];
        assert RingAt([sentinel], 0);
      }
      assert [other.sentinel] + other.elems == [other.sentinel];
      assert RingAt([other.sentinel], 0);
    }

    /** The transfer seen from the two lists: elements b to e of from go before position p. */
    method TransferSlice(destination: Node, begin: Node, end: Node, ghost p: nat, from: LinkedList, ghost b: nat, ghost e: nat)
      requires Valid() && from.Valid() && sentinel != from.sentinel && p <= |elems| && b < e <= |from.elems|
      requires destination == Wrap([sentinel] + elems, p + 1)
      requires begin == from.elems[b] && end == Wrap([from.sentinel] + from.elems, e + 1)
      modifies this, sentinel, elems, from, from.sentinel, from.elems
      ensures Valid() && from.Valid()
      ensures elems == old(elems)[..p] + old(from.elems)[b..e] + old(elems)[p..]
      ensures from.elems == old(from.elems)[..b] + old(from.elems)[e..]
    {
      hide Ring, Distinct, Apart;
      ghost var s, o := elems, from.elems;
      ghost var r, q := [sentinel] + s, [from.sentinel] + o;
      Separate(from);
      destination.TransferBeforeUnsafe(begin, end, r, p + 1, q, b + 1, e + 1);
      elems, from.elems := s[..p] + o[b..e] + s[p..], o[..b] + o[e..];
      SplicedRings(sentinel, s, p, from.sentinel, o, b, e);
    }

    method ExtendBack(other: LinkedList)
      requires Valid() && other.Valid() && sentinel != other.sentinel
      modifies this, sentinel, elems, other, other.sentinel, other.elems
      ensures Valid() && elems == old(elems) + old(other.elems) && other.Valid() && other.elems == []
    {
      hide Ring;
      other.EmptyIsExact();
      if other.IsEmpty() {
        return;
      }
      FirstOfRing([other.sentinel] + other.elems);
      TransferSlice(sentinel, other.sentinel.next, other.sentinel, |elems|, other, 0, |other.elems|);
    }

    /** Walks pos steps from the node at position at, stopping at the sentinel. */
    method SafeForward(begin: Node, pos: nat, ghost at: nat) returns (node: Node)
      requires Valid() && 1 <= at <= |elems| + 1 && begin == Wrap([sentinel] + elems, at)
      ensures node == Wrap([sentinel] + elems, Smaller(at + pos, |elems| + 1))
    {
      ghost var r := [sentinel] + elems;
      node := begin;
      var i := 0;
      while i < pos
        invariant 0 <= i <= pos && node == Wrap(r, Smaller(at + i, |r|))
      {
        if node.isSentinel {
          break;
        }
        assert RingAt(r, at + i);
        i := i + 1;
        node := node.next;
      }
    }

    /** Moves up to len elements of from, starting at start, to position pos, or to the end if pos is past it. */
    method Splice(pos: nat, from: LinkedList, start: nat, len: nat)
      requires Valid() && from.Valid() && sentinel != from.sentinel
      modifies this, sentinel, elems, from, from.sentinel, from.elems
      ensures Valid() && from.Valid()
      ensures var s, o := old(elems), old(from.elems);
              var p, b, e := Smaller(pos, |s|), Smaller(start, |o|), Smaller(start + len, |o|);
              elems == s[..p] + o[b..e] + s[p..] && from.elems == o[..b] + o[e..]
    {
      hide Ring, Distinct, Apart;
      from.EmptyIsExact();
      ghost var s, o := elems, from.elems;
      ghost var p, b, e := Smaller(pos, |s|), Smaller(start, |o|), Smaller(start + len, |o|);
      if from.IsEmpty() || len == 0 {
        NothingMoves(s, p, o, b, e);
        return;
      }
      ghost var r, q := [sentinel] + s, [from.sentinel] + o;
      FirstOfRing(r);
      FirstOfRing(q);
      var sourceBegin := from.SafeForward(from.sentinel.next, start, 1);
      if sourceBegin.isSentinel {
        NothingMoves(s, p, o, b, e);
        return;
      }
      var sourceEnd := from.SafeForward(sourceBegin, len, b + 1);
      var destination := SafeForward(sentinel.next, pos, 1);
      TransferSlice(destination, sourceBegin, sourceEnd, p, from, b, e);
    }

    /** Two lists share no node. */
    lemma Separate(other: LinkedList)
      requires Valid() && other.Valid() && sentinel != other.sentinel
      ensures Apart([sentinel] + elems, [other.sentinel] + other.elems)
    {
      var r, q := [sentinel] + elems, [other.sentinel] + other.elems;
      forall i, j | 0 <= i < |r| && 0 <= j < |q|
        ensures r[i] != q[j]
      {
        RingsMeetNowhere(r, q, i, j);
      }
    }
  }

  lemma RingIsDistinct(x: Node, s: seq<Node>)
    requires Ring([x] + s)
    ensures Distinct(s) && x !in s
  {
    TailIsDistinct(x, s);
  }

  lemma CutRing<T>(x: T, s: seq<T>, k: nat)
    requires k < |s|
    ensures ([x] + s)[..k + 1] + ([x] + s)[k + 2..] == [x] + (s[..k] + s[k + 1..])
  {
    assert ([x] + s)[..k + 1] == [x] + s[..k] && ([x] + s)[k + 2..] == s[k + 1..];
  }

  lemma TailIsDistinct(x: Node, s: seq<Node>)
    requires Distinct([x] + s)
    ensures Distinct(s) && x !in s
  {
    forall i | 0 <= i < |s|
      ensures s[i] == ([x] + s)[i + 1] != x
    {
      assert ([x] + s)[0] == x;
    }
  }

  lemma FirstOfRing(r: seq<Node>)
    requires Ring(r)
    ensures r[0].next == Wrap(r, 1)
  {
    assert RingAt(r, 0);
  }

  function Smaller(a: nat, b: nat): nat {
    if a < b then a else b
  }

  lemma NothingMoves<T>(s: seq<T>, p: nat, o: seq<T>, b: nat, e: nat)
    requires p <= |s| && b == e <= |o|
    ensures s[..p] + o[b..e] + s[p..] == s && o[..b] + o[e..] == o
  {
  }

  lemma SplicedRings(x: Node, s: seq<Node>, p: nat, y: Node, o: seq<Node>, b: nat, e: nat)
    requires p <= |s| && b <= e <= |o|
    ensures var r, q := [x] + s, [y] + o;
            r[..p + 1] + q[b + 1..e + 1] + r[p + 1..] == [x] + (s[..p] + o[b..e] + s[p..])
            && q[..b + 1] + q[e + 1..] == [y] + (o[..b] + o[e..])
  {
    var r, q := [x] + s, [y] + o;
    assert r[..p + 1] == [x] + s[..p] && q[b + 1..e + 1] == o[b..e] && r[p + 1..] == s[p..];
  }

  /** A node of two rings would make them reach each other's only sentinel. */
  lemma {:induction false} RingsMeetNowhere(r: seq<Node>, q: seq<Node>, i: nat, j: nat)
    requires Ring(r) && Ring(q) && i < |r| && j < |q| && r[0] != q[0]
    requires forall k :: 0 <= k < |r| ==> (r[k].isSentinel <==> k == 0)
    requires forall k :: 0 <= k < |q| ==> (q[k].isSentinel <==> k == 0)
    ensures r[i] != q[j]
    decreases |r| - i
  {
    if r[i] == q[j] {
      assert RingAt(r, i) && RingAt(q, j);
      if i + 1 < |r| && j + 1 < |q| {
        RingsMeetNowhere(r, q, i + 1, j + 1);
      }
    }
  }
}
