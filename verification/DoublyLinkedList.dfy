/**
 * The doubly linked list of mfbt/DoublyLinkedList.h, whose elements carry their
 * own links, and its "safe" variant, which keeps a stack of live iterators and
 * adjusts them when the list changes.
 */
module DoublyLinkedLists {
  import opened Basics
  import opened SafeIteration

  class Element {
    var next: Element?
    var prev: Element?

    constructor ()
      ensures next == null && prev == null
    {
      next, prev := null, null;
    }
  }

  function Get(s: seq<Element>, i: int): Element? {
    if 0 <= i < |s| then s[i] else null
  }

  ghost predicate LinkedAt(s: seq<Element>, i: nat)
    requires i < |s|
    reads s
  {
    s[i].next == Get(s, i + 1) && s[i].prev == Get(s, i - 1)
  }

  class DoublyLinkedList {
    var head: Element?
    var tail: Element?
    ghost var elems: seq<Element>

    ghost predicate Valid()
      reads this, elems
    {
      Distinct(elems) && head == Get(elems, 0) && tail == Get(elems, |elems| - 1) &&
      forall i :: 0 <= i < |elems| ==> LinkedAt(elems, i)
    }

    constructor ()
      ensures Valid() && elems == []
    {
      head, tail, elems := null, null, [];
    }

    predicate IsEmpty()
      reads this
    {
      head == null
    }

    predicate ElementNotInList(e: Element)
      reads this, e
    {
      if e.next == null && e.prev == null then head != e else false
    }

    predicate ElementProbablyInList(e: Element)
      reads this, e
    {
      if IsEmpty() then false else !ElementNotInList(e)
    }

    /** For an element of this list or of no list, the quick test is exact. */
    lemma ProbablyIsExact(e: Element)
      requires Valid() && (e in elems || (e.next == null && e.prev == null))
      ensures ElementProbablyInList(e) <==> e in elems
      ensures ElementNotInList(e) <==> e !in elems
    {
      if e in elems {
        var k :| 0 <= k < |elems| && elems[k] == e;
        assert LinkedAt(elems, k);
      }
    }

    lemma NextIsSuccessor(e: Element)
      requires Valid() && e in elems
      ensures e.next == Successor(elems, e)
    {
      var k :| 0 <= k < |elems| && elems[k] == e;
      assert LinkedAt(elems, k);
      SuccessorAt(elems, k);
    }

    method PushFront(e: Element)
      requires Valid() && ElementNotInList(e)
      modifies this, head, e
      ensures Valid() && elems == [e] + old(elems)
    {
      ProbablyIsExact(e);
      ghost var s := elems;
      e.next := head;
      if head != null {
        head.prev := e;
      }
      head := e;
      if tail == null {
        tail := e;
      }
      elems := [e] + s;
      forall i | 0 <= i < |elems|
        ensures LinkedAt(elems, i)
      {
        assert i > 0 ==> old(LinkedAt(s, i - 1));
      }
    }

    method PushBack(e: Element)
      requires Valid() && ElementNotInList(e)
      modifies this, tail, e
      ensures Valid() && elems == old(elems) + [e]
    {
      ProbablyIsExact(e);
      ghost var s := elems;
      e.next := null;
      e.prev := tail;
      if tail != null {
        tail.next := e;
      }
      tail := e;
      if head == null {
        head := e;
      }
      elems := s + [e];
      forall i | 0 <= i < |elems|
        ensures LinkedAt(elems, i)
      {
        assert i < |s| ==> old(LinkedAt(s, i));
      }
    }

    method PopFront() returns (result: Element?)
      requires Valid()
      modifies this, elems
      ensures Valid() && result == old(head)
      ensures old(elems) == [] ==> result == null && elems == []
      ensures old(elems) != [] ==>
                result == old(elems)[0] && elems == old(elems)[1..] && ElementNotInList(result)
    {
      ghost var s := elems;
      assert s != [] ==> LinkedAt(s, 0);
      result := head;
      head := if result != null then result.next else null;
      if head != null {
        head.prev := null;
      }
      if tail == result {
        tail := null;
      }
      if result != null {
        result.next := null;
        result.prev := null;
        elems := s[1..];
      }
      forall i | 0 <= i < |elems|
        ensures LinkedAt(elems, i)
      {
        assert old(LinkedAt(s, i + 1));
      }
    }

    method PopBack() returns (result: Element?)
      requires Valid()
      modifies this, elems
      ensures Valid() && result == old(tail)
      ensures old(elems) == [] ==> result == null && elems == []
      ensures old(elems) != [] ==>
                result == old(elems)[|old(elems)| - 1] && elems == old(elems)[..|old(elems)| - 1] && ElementNotInList(result)
    {
      ghost var s := elems;
      assert s != [] ==> LinkedAt(s, |s| - 1);
      result := tail;
      tail := if result != null then result.prev else null;
      if tail != null {
        tail.next := null;
      }
      if head == result {
        head := null;
      }
      if result != null {
        result.next := null;
        result.prev := null;
        elems := s[..|s| - 1];
      }
      forall i | 0 <= i < |elems|
        ensures LinkedAt(elems, i)
      {
        assert old(LinkedAt(s, i));
      }
    }

    /** Inserts e before the element at, or at the end when at is null. */
    method InsertBefore(at: Element?, e: Element)
      requires Valid() && ElementNotInList(e) && (at == null || at in elems)
      modifies this, elems, e
      ensures Valid()
      ensures at == null ==> elems == old(elems) + [e]
      ensures at != null ==> exists k :: 0 <= k < |old(elems)| && old(elems)[k] == at &&
                                         elems == old(elems)[..k] + [e] + old(elems)[k..]
    {
      ProbablyIsExact(e);
      ghost var s := elems;
      if at == null {
        PushBack(e);
      } else if at == head {
        PushFront(e);
        assert elems == s[..0] + [e] + s[0..];
      } else {
        ghost var k :| 0 <= k < |s| && s[k] == at;
        assert LinkedAt(s, k);
        var before := at.prev;
        assert before == s[k - 1];
        assert LinkedAt(s, k - 1);
        before.next := e;
        e.prev := before;
        e.next := at;
        at.prev := e;
        elems := s[..k] + [e] + s[k..];
        forall i | 0 <= i < |elems|
          ensures LinkedAt(elems, i)
        {
          assert i < k ==> old(LinkedAt(s, i));
          assert i > k ==> old(LinkedAt(s, i - 1));
        }
      }
    }

    method Remove(e: Element)
      requires Valid() && e in elems
      modifies this, elems
      ensures Valid() && elems == Without(old(elems), e) && ElementNotInList(e)
    {
      hide Distinct, Without;
      ghost var s := elems;
      ghost var k :| 0 <= k < |s| && s[k] == e;
      assert LinkedAt(s, k);
      Neighbours(s, k);
      var prev := e.prev;
      if prev != null {
        assert LinkedAt(s, k - 1);
        prev.next := e.next;
      } else {
        head := e.next;
      }
      var next := e.next;
      if next != null {
        assert old(LinkedAt(s, k + 1));
        next.prev := e.prev;
      } else {
        tail := e.prev;
      }
      e.next := null;
      e.prev := null;
      elems := s[..k] + s[k + 1..];
      forall j | 0 <= j < |s| && j != k
        ensures LinkedAround(s, k, j)
      {
        assert old(LinkedAt(s, j));
        DifferentAt(s, j, k);
      }
      WithoutAt(s, k);
      DistinctWithout(s, k);
      CutIsLinked(s, k);
    }
  }

  lemma DifferentAt(s: seq<Element>, j: nat, k: nat)
    requires Distinct(s) && j < |s| && k < |s| && j != k
    ensures s[j] != s[k] && (k > 0 && j != k - 1 ==> s[j] != s[k - 1]) && (k + 1 < |s| && j != k + 1 ==> s[j] != s[k + 1])
  {
  }

  lemma Neighbours(s: seq<Element>, k: nat)
    requires Distinct(s) && k < |s|
    ensures k > 0 ==> s[k - 1] != s[k] && s[0] != s[k]
    ensures k + 1 < |s| ==> s[k + 1] != s[k]
    ensures k > 0 && k + 1 < |s| ==> s[k - 1] != s[k + 1]
  {
  }

  /** The links of s[j] when s[k] is bypassed. */
  ghost predicate LinkedAround(s: seq<Element>, k: nat, j: nat)
    requires k < |s| && j < |s|
    reads s
  {
    s[j].next == Get(s, if j + 1 == k then k + 1 else j + 1) && s[j].prev == Get(s, if j == k + 1 then k - 1 else j - 1)
  }

  lemma CutIsLinked(s: seq<Element>, k: nat)
    requires k < |s| && forall j :: 0 <= j < |s| && j != k ==> LinkedAround(s, k, j)
    ensures var t := s[..k] + s[k + 1..];
            forall i :: 0 <= i < |t| ==> LinkedAt(t, i)
  {
    var t := s[..k] + s[k + 1..];
    forall i | 0 <= i < |t|
      ensures LinkedAt(t, i)
    {
      assert LinkedAround(s, k, if i < k then i else i + 1);
    }
  }

  // ----- what an iterator holds, for a list with the given elements

  function Successor(s: seq<Element>, e: Element): Element? {
    var t := SuffixFrom<Element>(s, e);
    if |t| > 1 then t[1] else null
  }

  predicate TracksOn(s: seq<Element>, current: Element?, next: Element?) {
    (next == null || next in s) && (current != null ==> current in s && Successor(s, current) == next)
  }

  function PendingOn(s: seq<Element>, next: Element?): seq<Element> {
    if next == null then [] else SuffixFrom<Element>(s, next)
  }

  /** How an iterator is adjusted when e goes; popBack looks at its next element only if it is not at e itself. */
  function CurrentAfter(current: Element?, e: Element?): Element? {
    if current == e then null else current
  }

  function NextAfterDelete(s: seq<Element>, next: Element?, e: Element): Element? {
    if next == e then Successor(s, e) else next
  }

  function NextAfterPopBack(current: Element?, next: Element?, e: Element?): Element? {
    if current != e && next == e then null else next
  }

  function Yield(current: Element?): seq<Element> {
    if current == null then [] else [current]
  }

  lemma AdvanceTracks(s: seq<Element>, next: Element)
    requires Distinct(s) && next in s
    ensures TracksOn(s, next, Successor(s, next))
    ensures PendingOn(s, next) == [next] + PendingOn(s, Successor(s, next))
  {
    var k :| 0 <= k < |s| && s[k] == next;
    SuffixAt<Element>(s, k);
    if k + 1 < |s| {
      SuffixAt<Element>(s, k + 1);
    }
  }

  lemma PushFrontTracks(s: seq<Element>, e: Element, current: Element?, next: Element?)
    requires TracksOn(s, current, next) && e !in s
    ensures TracksOn([e] + s, current, next) && PendingOn([e] + s, next) == PendingOn(s, next)
  {
    if next != null {
      SuffixPrepend<Element>(s, next, e);
    }
    if current != null {
      SuffixPrepend<Element>(s, current, e);
    }
  }

  lemma PushBackTracks(s: seq<Element>, e: Element, current: Element?, next: Element?)
    requires TracksOn(s, current, next) && e !in s
    ensures var next1 := if next == null then e else next;
            TracksOn(s + [e], current, next1) && PendingOn(s + [e], next1) == PendingOn(s, next) + [e]
  {
    if next != null {
      SuffixAppend<Element>(s, next, e);
    } else {
      SuffixOfLast<Element>(s, e);
    }
    if current != null {
      SuffixAppend<Element>(s, current, e);
      SuffixHead(s, current);
    }
  }

  lemma {:induction false} SuffixHead(s: seq<Element>, e: Element)
    requires e in s
    ensures SuffixFrom<Element>(s, e) != [] && SuffixFrom<Element>(s, e)[0] == e
  {
    if s[0] != e {
      SuffixHead(s[1..], e);
    }
  }

  lemma SuccessorAt(s: seq<Element>, k: nat)
    requires Distinct(s) && k < |s|
    ensures Successor(s, s[k]) == Get(s, k + 1)
  {
    SuffixAt<Element>(s, k);
  }

  lemma SuccessorAfterDelete(s: seq<Element>, e: Element, current: Element)
    requires Distinct(s) && e in s && current in s && current != e
    ensures Successor(Without<Element>(s, e), current) == (if Successor(s, current) == e then Successor(s, e) else Successor(s, current))
  {
    var k :| 0 <= k < |s| && s[k] == e;
    var c :| 0 <= c < |s| && s[c] == current;
    var t := Without<Element>(s, e);
    WithoutAt<Element>(s, k);
    DistinctWithout<Element>(s, k);
    SuccessorAt(s, c);
    SuccessorAt(s, k);
    SuccessorAt(t, if c < k then c else c - 1);
  }

  lemma DeleteTracks(s: seq<Element>, e: Element, current: Element?, next: Element?)
    requires Distinct(s) && e in s && TracksOn(s, current, next)
    ensures var current1, next1 := CurrentAfter(current, e), NextAfterDelete(s, next, e);
            TracksOn(Without<Element>(s, e), current1, next1)
            && PendingOn(Without<Element>(s, e), next1) == Without<Element>(PendingOn(s, next), e)
  {
    var k :| 0 <= k < |s| && s[k] == e;
    SuccessorAt(s, k);
    if next == e {
      SuffixAt<Element>(s, k);
      if k + 1 < |s| {
        SuffixOfSuccessor<Element>(s, k);
        WithoutMembers<Element>(s, e, s[k + 1]);
      }
    } else if next != null {
      SuffixWithout<Element>(s, next, e);
      WithoutMembers<Element>(s, e, next);
    }
    if current != null && current != e {
      SuccessorAfterDelete(s, e, current);
      WithoutMembers<Element>(s, e, current);
    }
  }

  lemma LastHasNoSuccessor(s: seq<Element>)
    requires Distinct(s) && s != []
    ensures var e := s[|s| - 1]; Without<Element>(s, e) == s[..|s| - 1] && Successor(s, e) == null
  {
    SuccessorAt(s, |s| - 1);
    WithoutAt<Element>(s, |s| - 1);
  }

  /** The adjustment made when the last element goes. */
  lemma PopBackTracks(s: seq<Element>, current: Element?, next: Element?)
    requires Distinct(s) && s != [] && TracksOn(s, current, next)
    ensures var e := s[|s| - 1];
            var current1, next1 := CurrentAfter(current, e), NextAfterPopBack(current, next, e);
            TracksOn(Without<Element>(s, e), current1, next1)
            && PendingOn(Without<Element>(s, e), next1) == Without<Element>(PendingOn(s, next), e)
  {
    LastHasNoSuccessor(s);
    DeleteTracks(s, s[|s| - 1], current, next);
  }

  /** The same, whether there is a last element or not. */
  lemma PoppedSees(s: seq<Element>, result: Element?, current: Element?, next: Element?)
    requires Distinct(s) && TracksOn(s, current, next) && result == Get(s, |s| - 1)
    ensures var current1, next1 := CurrentAfter(current, result), NextAfterPopBack(current, next, result);
            var rest := if s == [] then [] else s[..|s| - 1];
            && TracksOn(rest, current1, next1) && (result != null ==> rest == Without<Element>(s, result))
            && PendingOn(rest, next1) == if result == null then PendingOn(s, next) else Without<Element>(PendingOn(s, next), result)
  {
    if s != [] {
      LastHasNoSuccessor(s);
      PopBackTracks(s, current, next);
    }
  }

  lemma FirstIsGone(s: seq<Element>)
    requires Distinct(s) && s != []
    ensures Without<Element>(s, s[0]) == s[1..] && s[0] !in s[1..]
  {
  }

  lemma NeverTracks(s: seq<Element>, gone: Element, current: Element?)
    requires gone !in s
    ensures !TracksOn(s, current, gone)
  {
  }

  // ----- iteration under mutation

  class SafeIterator {
    var current: Element?
    var next: Element?
    var nextIterator: SafeIterator?
    const owner: SafeDoublyLinkedList

    /** Starts at an element of the list, or past its end, on top of the iterators already live. */
    constructor (at: Element?, owner: SafeDoublyLinkedList)
      requires owner.Valid() && (at == null || at in owner.list.elems)
      modifies owner
      ensures owner.Valid() && owner.iters == [this] + old(owner.iters)
      ensures this.owner == owner && current == at
      ensures if at == null then owner.Pending(this) == []
              else [at] + owner.Pending(this) == SuffixFrom<Element>(owner.list.elems, at)
    {
      current := at;
      next := if at != null then at.next else null;
      nextIterator := owner.iter;
      this.owner := owner;
      new;
      ghost var st := owner.iters;
      owner.iter := this;
      owner.iters := [this] + st;
      if at != null {
        owner.list.NextIsSuccessor(at);
        AdvanceTracks(owner.list.elems, at);
      }
      forall i | 0 <= i < |owner.iters|
        ensures ChainedAt(owner.iters, i)
      {
        assert i > 0 ==> old(ChainedAt(st, i - 1));
      }
      forall it | it in st
        ensures owner.Tracks(it)
      {
        assert old(owner.Tracks(it));
      }
    }

    /** The operator ++ of the iterator. */
    method Advance()
      requires owner.Valid() && this in owner.iters
      modifies this
      ensures owner.Valid() && current == old(next)
      ensures After(old(owner.Seen(this)), Op.Advance)
              == View(owner.list.elems, owner.Pending(this), Yield(current))
      ensures nextIterator == old(nextIterator)
    {
      assert owner.Tracks(this);
      ghost var st := owner.iters;
      if next != null {
        owner.list.NextIsSuccessor(next);
        AdvanceTracks(owner.list.elems, next);
      }
      current := next;
      if next != null {
        next := next.next;
      }
      forall i | 0 <= i < |st|
        ensures ChainedAt(st, i)
      {
        assert old(ChainedAt(st, i));
      }
      forall it | it in st
        ensures owner.Tracks(it)
      {
        assert it != this ==> old(owner.Tracks(it));
      }
    }

    /** The destructor: iterators die in the opposite order of their creation. */
    method Close()
      requires owner.Valid() && owner.iter == this
      modifies owner
      ensures owner.Valid() && owner.iters == old(owner.iters)[1..]
    {
      ghost var st := owner.iters;
      assert ChainedAt(st, 0);
      owner.iter := nextIterator;
      owner.iters := st[1..];
      forall i | 0 <= i < |st| - 1
        ensures ChainedAt(st[1..], i)
      {
        assert old(ChainedAt(st, i + 1));
      }
      forall it | it in st[1..]
        ensures owner.Tracks(it)
      {
        assert old(owner.Tracks(it));
      }
    }
  }

  function GetIter(s: seq<SafeIterator>, i: int): SafeIterator? {
    if 0 <= i < |s| then s[i] else null
  }

  ghost predicate ChainedAt(s: seq<SafeIterator>, i: nat)
    requires i < |s|
    reads s
  {
    s[i].nextIterator == GetIter(s, i + 1)
  }

  class SafeDoublyLinkedList {
    const list: DoublyLinkedList
    var iter: SafeIterator?
    ghost var iters: seq<SafeIterator>

    ghost predicate Tracks(it: SafeIterator)
      reads list, it
    {
      it.owner == this && TracksOn(list.elems, it.current, it.next)
    }

    /** What an iterator has still to visit. */
    ghost function Pending(it: SafeIterator): seq<Element>
      reads list, it
    {
      PendingOn(list.elems, it.next)
    }

    ghost function Seen(it: SafeIterator): View<Element>
      reads list, it
    {
      View(list.elems, Pending(it), [])
    }

    /** A live iterator has the end of the list still before it. */
    lemma PendingIsSuffix(it: SafeIterator)
      requires Valid() && it in iters
      ensures Suffix(Seen(it))
    {
      assert Tracks(it);
      var s := list.elems;
      if it.next != null {
        var k :| 0 <= k < |s| && s[k] == it.next;
        SuffixAt<Element>(s, k);
      }
    }

    ghost predicate Chained()
      reads this, iters
    {
      Distinct(iters) && iter == GetIter(iters, 0) && forall i :: 0 <= i < |iters| ==> ChainedAt(iters, i)
    }

    ghost predicate Valid()
      reads this, list, list.elems, iters
    {
      list.Valid() && Chained() && forall it :: it in iters ==> Tracks(it)
    }

    constructor ()
      ensures Valid() && list.elems == [] && iters == [] && fresh(list)
    {
      list := new DoublyLinkedList();
      iter, iters := null, [];
    }

    method Contains(e: Element) returns (found: bool)
      requires Valid()
      ensures found <==> e in list.elems
    {
      var it := list.head;
      ghost var k := 0;
      while it != null
        invariant 0 <= k <= |list.elems| && it == Get(list.elems, k)
        invariant e !in list.elems[..k]
        decreases |list.elems| - k
      {
        assert LinkedAt(list.elems, k);
        if it == e {
          return true;
        }
        it := it.next;
        k := k + 1;
      }
      found := false;
    }

    method PushFront(e: Element)
      requires Valid() && list.ElementNotInList(e)
      modifies list, list.head, e
      ensures Valid() && list.elems == [e] + old(list.elems)
      ensures forall it :: it in iters ==> Seen(it) == After(old(Seen(it)), Op.PushFront(e)) && it.current == old(it.current)
    {
      ghost var s := list.elems;
      list.ProbablyIsExact(e);
      list.PushFront(e);
      forall it | it in iters
        ensures Tracks(it) && Seen(it) == After(old(Seen(it)), Op.PushFront(e))
      {
        assert old(Tracks(it));
        PushFrontTracks(s, e, it.current, it.next);
      }
      assert forall i :: 0 <= i < |iters| ==> old(ChainedAt(iters, i)) ==> ChainedAt(iters, i);
    }

    method PushBack(e: Element)
      requires Valid() && list.ElementNotInList(e)
      modifies list, list.tail, e, iters
      ensures Valid() && list.elems == old(list.elems) + [e]
      ensures forall it :: it in iters ==> Seen(it) == After(old(Seen(it)), Op.PushBack(e)) && it.current == old(it.current)
    {
      ghost var s, st, k := list.elems, iters, 0;
      list.ProbablyIsExact(e);
      list.PushBack(e);
      var it := iter;
      while it != null
        invariant 0 <= k <= |st| && it == GetIter(st, k)
        invariant forall j :: 0 <= j < |st| ==>
                    st[j].next == (if j < k && old(st[j].next) == null then e else old(st[j].next))
        invariant forall j :: 0 <= j < |st| ==> st[j].current == old(st[j].current) && st[j].nextIterator == old(st[j].nextIterator)
        modifies st
        decreases |st| - k
      {
        assert old(ChainedAt(st, k));
        if it.next == null {
          it.next := e;
        }
        it := it.nextIterator;
        k := k + 1;
      }
      forall i | 0 <= i < |st|
        ensures ChainedAt(st, i) && Tracks(st[i]) && Seen(st[i]) == After(old(Seen(st[i])), Op.PushBack(e))
      {
        assert old(ChainedAt(st, i)) && old(Tracks(st[i]));
        PushBackTracks(s, e, old(st[i].current), old(st[i].next));
      }
    }

    /** Leaves every iterator usable exactly when none of them would have moved to the head next. */
    method PopFront() returns (result: Element?)
      requires Valid()
      modifies list, list.elems, iters
      ensures result == old(list.head) && list.Valid()
      ensures result != null ==> result.next == null && result.prev == null
      ensures list.elems == if result == null then [] else Without<Element>(old(list.elems), result)
      ensures result == null ==> forall it :: it in iters ==> Seen(it) == old(Seen(it))
      ensures iters == old(iters) && forall it :: it in iters ==> it.next == old(it.next)
      ensures Valid() <==> result == null || forall it :: it in iters ==> old(it.next) != result
      ensures result != null ==> forall it :: it in iters && old(it.next) != result ==>
                Seen(it) == After(old(Seen(it)), Op.Delete(result))
                && it.current == CurrentAfter(old(it.current), result)
    {
      hide TracksOn, PendingOn, Successor, Without, SuffixFrom, SafeIteration.Suffix;
      ghost var s, st, k := list.elems, iters, 0;
      result := list.PopFront();
      var it := iter;
      while it != null
        invariant 0 <= k <= |st| && it == GetIter(st, k)
        invariant forall j :: 0 <= j < |st| ==>
                    st[j].current == if j < k then CurrentAfter(old(st[j].current), result) else old(st[j].current)
        invariant forall j :: 0 <= j < |st| ==> st[j].next == old(st[j].next) && st[j].nextIterator == old(st[j].nextIterator)
        modifies st
        decreases |st| - k
      {
        assert old(ChainedAt(st, k));
        if it.current == result {
          it.current := null;
        }
        it := it.nextIterator;
        k := k + 1;
      }
      if s != [] {
        FirstIsGone(s);
      }
      forall i | 0 <= i < |st|
        ensures ChainedAt(st, i)
        ensures result != null && old(st[i].next) != result ==>
                  Tracks(st[i]) && Seen(st[i]) == After(old(Seen(st[i])), Op.Delete(result))
        ensures result == null ==> Tracks(st[i])
        ensures result != null && old(st[i].next) == result ==> !Tracks(st[i])
      {
        assert old(ChainedAt(st, i)) && old(Tracks(st[i]));
        if result != null {
          DeleteTracks(s, result, old(st[i].current), old(st[i].next));
          if old(st[i].next) == result {
            NeverTracks(s[1..], result, st[i].current);
          }
        }
      }
    }

    /** The loop of popBack over the live iterators. */
    method ForgetLast(last: Element?)
      requires Chained()
      modifies iters
      ensures forall j :: 0 <= j < |iters| ==> iters[j].nextIterator == old(iters[j].nextIterator)
      ensures forall j :: 0 <= j < |iters| ==> iters[j].current == CurrentAfter(old(iters[j].current), last)
      ensures forall j :: 0 <= j < |iters| ==>
                iters[j].next == NextAfterPopBack(old(iters[j].current), old(iters[j].next), last)
    {
      ghost var st, k := iters, 0;
      var it := iter;
      while it != null
        invariant 0 <= k <= |st| && it == GetIter(st, k)
        invariant forall j :: 0 <= j < |st| ==>
                    st[j].current == if j < k then CurrentAfter(old(st[j].current), last) else old(st[j].current)
        invariant forall j :: 0 <= j < |st| ==> st[j].nextIterator == old(st[j].nextIterator)
        invariant forall j :: 0 <= j < |st| ==>
                    st[j].next == if j < k then NextAfterPopBack(old(st[j].current), old(st[j].next), last) else old(st[j].next)
        modifies st
        decreases |st| - k
      {
        assert old(ChainedAt(st, k));
        if it.current == last {
          it.current := null;
        } else if it.next != null && it.next == last {
          it.next := null;
        }
        it := it.nextIterator;
        k := k + 1;
      }
    }

    method PopBack() returns (result: Element?)
      requires Valid()
      modifies list, list.elems, iters
      ensures Valid() && result == old(list.tail)
      ensures result != null ==> result.next == null && result.prev == null
      ensures list.elems == if result == null then [] else Without<Element>(old(list.elems), result)
      ensures result == null ==> forall it :: it in iters ==> Seen(it) == old(Seen(it))
      ensures result != null ==> forall it :: it in iters ==>
                Seen(it) == After(old(Seen(it)), Op.Delete(result))
                && it.current == CurrentAfter(old(it.current), result)
    {
      hide CurrentAfter, NextAfterPopBack, LinkedAt, Distinct, TracksOn, PendingOn, Successor, Without, SuffixFrom, SafeIteration.Suffix;
      ghost var s, st := list.elems, iters;
      result := list.PopBack();
      ForgetLast(result);
      forall i | 0 <= i < |st|
        ensures ChainedAt(st, i) && Tracks(st[i])
        ensures Seen(st[i]) == if result == null then old(Seen(st[i])) else After(old(Seen(st[i])), Op.Delete(result))
      {
        assert old(ChainedAt(st, i)) && old(Tracks(st[i]));
        PoppedSees(s, result, old(st[i].current), old(st[i].next));
      }
      PoppedSees(s, result, null, null);
    }

    /** Removes e, which is an element of this list or of none. */
    method Remove(e: Element)
      requires Valid() && (e in list.elems || (e.next == null && e.prev == null))
      modifies list, list.elems, iters
      ensures Valid() && list.elems == Without<Element>(old(list.elems), e) && e.next == null && e.prev == null
      ensures forall it :: it in iters ==>
                Seen(it) == After(old(Seen(it)), Op.Delete(e))
                && it.current == CurrentAfter(old(it.current), e)
    {
      hide TracksOn, PendingOn, Successor, Without, SuffixFrom, SafeIteration.Suffix;
      ghost var s, st, k := list.elems, iters, 0;
      list.ProbablyIsExact(e);
      if !list.ElementProbablyInList(e) {
        NothingToDelete(e);
        return;
      }
      list.NextIsSuccessor(e);
      var it := iter;
      while it != null
        invariant 0 <= k <= |st| && it == GetIter(st, k)
        invariant forall j :: 0 <= j < |st| ==>
                    st[j].current == if j < k then CurrentAfter(old(st[j].current), e) else old(st[j].current)
        invariant forall j :: 0 <= j < |st| ==> st[j].nextIterator == old(st[j].nextIterator)
        invariant forall j :: 0 <= j < |st| ==>
                    st[j].next == if j < k then NextAfterDelete(s, old(st[j].next), e) else old(st[j].next)
        modifies st
        decreases |st| - k
      {
        assert old(ChainedAt(st, k));
        if it.next != null && it.next == e {
          it.next := it.next.next;
        }
        if it.current == e {
          it.current := null;
        }
        it := it.nextIterator;
        k := k + 1;
      }
      list.Remove(e);
      forall i | 0 <= i < |st|
        ensures ChainedAt(st, i) && Tracks(st[i]) && Seen(st[i]) == After(old(Seen(st[i])), Op.Delete(e))
      {
        assert old(ChainedAt(st, i)) && old(Tracks(st[i]));
        DeleteTracks(s, e, old(st[i].current), old(st[i].next));
      }
    }

    lemma NothingToDelete(e: Element)
      requires Valid() && e !in list.elems
      ensures Without<Element>(list.elems, e) == list.elems
      ensures forall it :: it in iters ==> After(Seen(it), Op.Delete(e)) == Seen(it) && it.current != e
    {
      WithoutAbsent<Element>(list.elems, e);
      forall it | it in iters
        ensures After(Seen(it), Op.Delete(e)) == Seen(it) && it.current != e
      {
        assert Tracks(it);
        if e in Pending(it) {
          SuffixMember<Element>(list.elems, it.next, e);
        }
        WithoutAbsent<Element>(Pending(it), e);
      }
    }
  }

  // ----- runs on the list itself

  /** What may happen while iterators are live: changes to the list, and steps of any of the iterators. */
  datatype ListOp =
    | DoPushFront(e: Element)
    | DoPushBack(e: Element)
    | DoPopFront
    | DoPopBack
    | DoRemove(e: Element)
    | DoAdvance(which: SafeIterator)

  /** The steps one iterator sees: nothing when another iterator moves or there is nothing to take away. */
  ghost function Effect(v: View<Element>, it: SafeIterator, op: ListOp): seq<Op<Element>> {
    match op
    case DoPushFront(e) => [Op.PushFront(e)]
    case DoPushBack(e) => [Op.PushBack(e)]
    case DoPopFront => if v.elems == [] then [] else [Op.Delete(v.elems[0])]
    case DoPopBack => if v.elems == [] then [] else [Op.Delete(v.elems[|v.elems| - 1])]
    case DoRemove(e) => if e in v.elems then [Op.Delete(e)] else []
    case DoAdvance(which) => if which == it then [Op.Advance] else []
  }

  ghost function Effects(v: View<Element>, it: SafeIterator, ops: seq<ListOp>): seq<Op<Element>> {
    if ops == [] then []
    else
      var before := Effects(v, it, ops[..|ops| - 1]);
      before + Effect(AfterRun(v, before), it, ops[|ops| - 1])
  }

  /** Every element in play is in this list or in none. */
  ghost predicate Owned(list: SafeDoublyLinkedList, u: set<Element>)
    reads list, list.list, list.list.elems, list.iters, u
  {
    list.Valid() && (forall e :: e in list.list.elems ==> e in u)
    && forall e :: e in u && e !in list.list.elems ==> e.next == null && e.prev == null
  }

  ghost predicate Uses(list: SafeDoublyLinkedList, u: set<Element>, op: ListOp)
    reads list
  {
    match op
    case DoPushFront(e) => e in u
    case DoPushBack(e) => e in u
    case DoRemove(e) => e in u
    case DoAdvance(which) => which in list.iters
    case _ => true
  }

  /** An element is pushed only if it is not in the list; the head is popped only if no iterator would move to it next. */
  ghost predicate MayDo(list: SafeDoublyLinkedList, op: ListOp)
    reads list, list.list, list.iters
  {
    match op
    case DoPushFront(e) => e !in list.list.elems
    case DoPushBack(e) => e !in list.list.elems
    case DoPopFront => list.list.head != null ==> forall it :: it in list.iters ==> it.next != list.list.head
    case _ => true
  }

  method MayPerform(list: SafeDoublyLinkedList, op: ListOp, ghost u: set<Element>) returns (may: bool)
    requires Owned(list, u) && Uses(list, u, op)
    ensures may <==> MayDo(list, op)
  {
    match op
    case DoPushFront(e) =>
      list.list.ProbablyIsExact(e);
      may := list.list.ElementNotInList(e);
    case DoPushBack(e) =>
      list.list.ProbablyIsExact(e);
      may := list.list.ElementNotInList(e);
    case DoPopFront =>
      var it := list.iter;
      ghost var k := 0;
      while it != null
        invariant 0 <= k <= |list.iters| && it == GetIter(list.iters, k)
        invariant list.list.head != null ==> forall j :: 0 <= j < k ==> list.iters[j].next != list.list.head
        decreases |list.iters| - k
      {
        assert ChainedAt(list.iters, k);
        if it.next != null && it.next == list.list.head {
          return false;
        }
        it := it.nextIterator;
        k := k + 1;
      }
      may := true;
    case _ => may := true;
  }

  /** Taking an element away, from either end or by name. */
  method Discard(list: SafeDoublyLinkedList, op: ListOp, it: SafeIterator, ghost u: set<Element>)
    requires op.DoPopFront? || op.DoPopBack? || op.DoRemove?
    requires Owned(list, u) && Uses(list, u, op) && MayDo(list, op) && it in list.iters
    modifies list.list, u, list.iters
    ensures Owned(list, u)
    ensures list.Seen(it) == AfterRun(old(list.Seen(it)), Effect(old(list.Seen(it)), it, op))
  {
    hide TracksOn, PendingOn, Successor, Without, SuffixFrom, SafeIteration.Suffix, AfterRun, After, LinkedAt, ChainedAt;
    ghost var v := list.Seen(it);
    NoStep(v);
    match op
    case DoPopFront =>
      var e := list.PopFront();
      if e != null {
        OneStep(v, Op.Delete(e));
        RemovedIsGone(v.elems, e);
      }
    case DoPopBack =>
      var e := list.PopBack();
      if e != null {
        OneStep(v, Op.Delete(e));
        RemovedIsGone(v.elems, e);
      }
    case DoRemove(e) =>
      OneStep(v, Op.Delete(e));
      if e !in v.elems {
        list.NothingToDelete(e);
      }
      list.Remove(e);
      RemovedIsGone(v.elems, e);
      forall x | x in u && x !in list.list.elems
        ensures x.next == null && x.prev == null
      {
        assert x == e || x !in v.elems;
      }
  }

  /** One operation changes the list, and what the iterator it sees, exactly as its effect says. */
  method Perform(list: SafeDoublyLinkedList, op: ListOp, it: SafeIterator, ghost u: set<Element>) returns (yielded: seq<Element>)
    requires Owned(list, u) && Uses(list, u, op) && MayDo(list, op) && it in list.iters
    modifies list.list, u, list.iters
    ensures Owned(list, u)
    ensures AllowedRun(old(list.Seen(it)), Effect(old(list.Seen(it)), it, op))
    ensures View(list.list.elems, list.Pending(it), yielded)
            == AfterRun(old(list.Seen(it)), Effect(old(list.Seen(it)), it, op))
  {
    hide TracksOn, PendingOn, Successor, Without, SuffixFrom, SafeIteration.Suffix, AfterRun, AllowedRun, After, LinkedAt, ChainedAt;
    ghost var v := list.Seen(it);
    yielded := [];
    NoStep(v);
    match op
    case DoPushFront(e) =>
      OneStep(v, Op.PushFront(e));
      list.list.ProbablyIsExact(e);
      list.PushFront(e);
    case DoPushBack(e) =>
      OneStep(v, Op.PushBack(e));
      list.list.ProbablyIsExact(e);
      list.PushBack(e);
    case DoAdvance(which) =>
      OneStep(v, Op.Advance);
      which.Advance();
      if which == it {
        yielded := Yield(it.current);
      }
    case _ =>
      EffectIsAllowed(v, it, op);
      Discard(list, op, it, u);
  }

  lemma EffectIsAllowed(v: View<Element>, it: SafeIterator, op: ListOp)
    requires !op.DoPushFront? && !op.DoPushBack?
    ensures AllowedRun(v, Effect(v, it, op))
  {
  }

  lemma NoStep(v: View<Element>)
    ensures AfterRun(v, []) == v && AllowedRun(v, [])
  {
  }

  lemma OneStep(v: View<Element>, op: Op<Element>)
    ensures AfterRun(v, [op]) == After(v, op)
    ensures AllowedRun(v, [op]) <==> Allowed(v, op)
  {
  }

  lemma RemovedIsGone(s: seq<Element>, e: Element)
    requires Distinct(s)
    ensures forall x :: x in Without<Element>(s, e) <==> x in s && x != e
    ensures e !in s ==> Without<Element>(s, e) == s
  {
    forall x
      ensures x in Without<Element>(s, e) <==> x in s && x != e
    {
      WithoutMembers<Element>(s, e, x);
    }
    if e !in s {
      WithoutAbsent<Element>(s, e);
    }
  }

  /** The iterator popFront forgets: made on an empty list, it moves to the first element appended; once that
      element is popped, the iterator still moves to it next although it is in no list. */
  method StrandedIterator() returns (list: SafeDoublyLinkedList, it: SafeIterator, e: Element)
    ensures list.list.Valid() && list.list.elems == [] && it.next == e && !list.Tracks(it)
    ensures it in list.iters && !list.Valid()
  {
    list := new SafeDoublyLinkedList();
    it := new SafeIterator(null, list);
    e := new Element();
    list.PushBack(e);
    assert list.Tracks(it) && list.Pending(it) == [e];
    var popped := list.PopFront();
  }

  /** The elements and iterators the operations name. */
  ghost predicate AllUse(list: SafeDoublyLinkedList, u: set<Element>, ops: seq<ListOp>)
    reads list
  {
    forall k :: 0 <= k < |ops| ==> Uses(list, u, ops[k])
  }

  /**
   * Runs the operations on the list, up to the first one the caller may not
   * make. What any live iterator it then has pending and has yielded is what
   * the abstract run of its effects says; so it yields only elements in the list
   * at that moment, and every element ahead of it that is never taken away, once
   * and in order.
   */
  method Run(list: SafeDoublyLinkedList, ops: seq<ListOp>, it: SafeIterator, ghost u: set<Element>)
    returns (done: nat, yielded: seq<Element>)
    requires Owned(list, u) && AllUse(list, u, ops) && it in list.iters
    modifies list.list, u, list.iters
    ensures Owned(list, u) && done <= |ops| && (done < |ops| ==> !MayDo(list, ops[done]))
    ensures var v, run := old(list.Seen(it)), Effects(old(list.Seen(it)), it, ops[..done]);
            && Suffix(v) && AllowedRun(v, run)
            && View(list.list.elems, list.Pending(it), yielded) == AfterRun(v, run)
            && (forall i :: 0 <= i < |run| && run[i].Advance? ==> YieldsOneListed(AfterRun(v, run[..i]), AfterRun(v, run[..i + 1])))
            && Keep(yielded + list.Pending(it), Deleted(run)) == Keep(v.pending + Appended(run), Deleted(run))
  {
    hide SuffixFrom, SafeIteration.Suffix, AfterRun, AllowedRun, Effect, Keep, Deleted, Appended;
    ghost var v := list.Seen(it);
    list.PendingIsSuffix(it);
    NoStep(v);
    yielded := [];
    done := 0;
    ghost var run: seq<Op<Element>> := [];
    while done < |ops|
      invariant done <= |ops| && Owned(list, u) && list.iters == old(list.iters)
      invariant run == Effects(v, it, ops[..done]) && AllowedRun(v, run)
      invariant View(list.list.elems, list.Pending(it), yielded) == AfterRun(v, run)
    {
      var may := MayPerform(list, ops[done], u);
      if !may {
        break;
      }
      ghost var now, effect := list.Seen(it), Effect(AfterRun(v, run), it, ops[done]);
      EffectSees(now, AfterRun(v, run), it, ops[done]);
      var more := Perform(list, ops[done], it, u);
      RunsCompose(v, run, now, yielded, effect);
      assert ops[..done + 1][..done] == ops[..done];
      yielded := yielded + more;
      run := run + effect;
      done := done + 1;
    }
    YieldsListed(v, run);
    EachVisitedOnceInOrder(v.elems, v.pending, run);
  }

  lemma EffectSees(v: View<Element>, w: View<Element>, it: SafeIterator, op: ListOp)
    requires v.elems == w.elems
    ensures Effect(v, it, op) == Effect(w, it, op)
  {
  }
}
