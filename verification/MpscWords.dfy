/** The two atomics of mozilla::MPSCRingBufferBase: a 64-bit word as a queue of 4-bit slot ids. */
module MpscWords {
  import opened Wrappers

  const MAX_IDS: nat := 15

  // ----- the numbers 0..15 as uint64_t

  function Word(n: nat): (w: bv64)
    requires n < 16
    ensures w < 16
  {
    if n == 0 then 0 else if n == 1 then 1 else if n == 2 then 2 else if n == 3 then 3
    else if n == 4 then 4 else if n == 5 then 5 else if n == 6 then 6 else if n == 7 then 7
    else if n == 8 then 8 else if n == 9 then 9 else if n == 10 then 10 else if n == 11 then 11
    else if n == 12 then 12 else if n == 13 then 13 else if n == 14 then 14 else 15
  }

  function Number(w: bv64): (n: nat)
    requires w < 16
    ensures n < 16 && Word(n) == w
  {
    if w == 0 then 0 else if w == 1 then 1 else if w == 2 then 2 else if w == 3 then 3
    else if w == 4 then 4 else if w == 5 then 5 else if w == 6 then 6 else if w == 7 then 7
    else if w == 8 then 8 else if w == 9 then 9 else if w == 10 then 10 else if w == 11 then 11
    else if w == 12 then 12 else if w == 13 then 13 else if w == 14 then 14 else 15
  }

  lemma WordFacts(n: nat)
    requires n < 16
    ensures Number(Word(n)) == n
    ensures Word(n) == 0 <==> n == 0
    ensures n < 15 ==> Word(n + 1) == Word(n) + 1
    ensures n < 15 <==> Word(n) < 15
  {
  }

  lemma WordInjective(m: nat, n: nat)
    requires m < 16 && n < 16 && Word(m) == Word(n)
    ensures m == n
  {
    WordFacts(m);
    WordFacts(n);
  }

  // ----- Get and Set

  function Get(number: bv64, index: bv64): bv64
    requires index < 16
  {
    ShiftFits(index);
    (number >> (4 * index)) & 15
  }

  function Set(number: bv64, index: bv64, value: bv64): bv64
    requires index < 16
  {
    ShiftFits(index);
    (number & !(15 << (4 * index))) | (value << (4 * index))
  }

  lemma ShiftFits(index: bv64)
    requires index < 16
    ensures 4 * index <= 64
  {
  }

  // ----- bit-level facts

  lemma GetSet(number: bv64, i: bv64, value: bv64, j: bv64)
    requires i < 16 && j < 16 && value < 16
    ensures Get(Set(number, i, value), j) == if i == j then value else Get(number, j)
  {
  }

  lemma GetShifted(number: bv64, i: bv64)
    requires i < 15
    ensures Get(number >> 4, i) == Get(number, i + 1)
  {
  }

  lemma GetLast(number: bv64)
    ensures Get(number >> 4, 15) == 0
  {
  }

  lemma GetFirst(number: bv64)
    ensures Get(number, 0) == number & 15
  {
  }

  lemma GetSmall(number: bv64, i: bv64)
    requires i < 16
    ensures Get(number, i) < 16
  {
  }

  lemma SameNibbles(a: bv64, b: bv64)
    requires Get(a, 0) == Get(b, 0) && Get(a, 1) == Get(b, 1) && Get(a, 2) == Get(b, 2) && Get(a, 3) == Get(b, 3)
    requires Get(a, 4) == Get(b, 4) && Get(a, 5) == Get(b, 5) && Get(a, 6) == Get(b, 6) && Get(a, 7) == Get(b, 7)
    requires Get(a, 8) == Get(b, 8) && Get(a, 9) == Get(b, 9) && Get(a, 10) == Get(b, 10) && Get(a, 11) == Get(b, 11)
    requires Get(a, 12) == Get(b, 12) && Get(a, 13) == Get(b, 13) && Get(a, 14) == Get(b, 14) && Get(a, 15) == Get(b, 15)
    ensures a == b
  {
  }

  // ----- words as queues

  /** The i-th slot id of a word. */
  function Nibble(w: bv64, i: nat): (id: nat)
    requires i < 16
    ensures id < 16
  {
    GetSmall(w, Word(i));
    Number(Get(w, Word(i)))
  }

  /** The nibbles of w spell q from the low end: a gap-free prefix of non-zero ids, zeros above. */
  ghost predicate Holds(w: bv64, q: seq<nat>) {
    && |q| <= MAX_IDS
    && (forall i: nat :: i < |q| ==> q[i] != 0 && Nibble(w, i) == q[i])
    && (forall i: nat :: |q| <= i < 16 ==> Nibble(w, i) == 0)
  }

  /** The ids read from the low end up to the first zero nibble. */
  ghost function IdsFrom(w: bv64, i: nat): seq<nat>
    requires i <= 16
    decreases 16 - i
  {
    if i == 16 || Nibble(w, i) == 0 then [] else [Nibble(w, i)] + IdsFrom(w, i + 1)
  }

  ghost function Ids(w: bv64): seq<nat> {
    IdsFrom(w, 0)
  }

  ghost predicate GapFree(w: bv64) {
    Holds(w, Ids(w))
  }

  lemma {:induction false} IdsFromHolds(w: bv64, q: seq<nat>, i: nat)
    requires Holds(w, q) && i <= |q|
    ensures IdsFrom(w, i) == q[i..]
    decreases |q| - i
  {
    hide Nibble;
    if i < |q| {
      IdsFromHolds(w, q, i + 1);
      assert q[i..] == [q[i]] + q[i + 1..];
    }
  }

  /** A word spells at most one queue. */
  lemma HoldsUnique(w: bv64, q: seq<nat>)
    requires Holds(w, q)
    ensures Ids(w) == q && GapFree(w)
  {
    IdsFromHolds(w, q, 0);
    assert q[0..] == q;
  }

  lemma SameNibble(a: bv64, b: bv64, i: nat)
    requires i < 16 && Nibble(a, i) == Nibble(b, i)
    ensures Get(a, Word(i)) == Get(b, Word(i))
  {
    hide Get, Word;
    GetSmall(a, Word(i));
    GetSmall(b, Word(i));
  }

  /** And a queue is spelled by at most one word: a successful whole-word CAS cannot suffer from ABA. */
  lemma WordOfQueue(a: bv64, b: bv64, q: seq<nat>)
    requires Holds(a, q) && Holds(b, q)
    ensures a == b
  {
    hide Get, Number;
    forall i: nat | i < 16
      ensures Get(a, Word(i)) == Get(b, Word(i))
    {
      SameNibble(a, b, i);
    }
    assert Get(a, Word(0)) == Get(b, Word(0)) && Get(a, Word(1)) == Get(b, Word(1));
    assert Get(a, Word(2)) == Get(b, Word(2)) && Get(a, Word(3)) == Get(b, Word(3));
    assert Get(a, Word(4)) == Get(b, Word(4)) && Get(a, Word(5)) == Get(b, Word(5));
    assert Get(a, Word(6)) == Get(b, Word(6)) && Get(a, Word(7)) == Get(b, Word(7));
    assert Get(a, Word(8)) == Get(b, Word(8)) && Get(a, Word(9)) == Get(b, Word(9));
    assert Get(a, Word(10)) == Get(b, Word(10)) && Get(a, Word(11)) == Get(b, Word(11));
    assert Get(a, Word(12)) == Get(b, Word(12)) && Get(a, Word(13)) == Get(b, Word(13));
    assert Get(a, Word(14)) == Get(b, Word(14)) && Get(a, Word(15)) == Get(b, Word(15));
    SameNibbles(a, b);
  }

  lemma EmptyWord()
    ensures Holds(0, [])
  {
    forall i: nat | i < 16
      ensures Nibble(0, i) == 0
    {
      ZeroNibble(Word(i));
    }
  }

  lemma ZeroNibble(i: bv64)
    requires i < 16
    ensures Get(0, i) == 0
  {
  }

  /** The id UnmarkSlot reads; zero means none. */
  function FrontId(w: bv64): (id: nat)
    ensures id < 16
  {
    LowBits(w);
    Number(w & 15)
  }

  lemma LowBits(w: bv64)
    ensures w & 15 < 16
  {
  }

  /** UnmarkSlot: the low nibble is the front of the queue, zero exactly when the queue is empty,
      and shifting it out leaves the rest. */
  lemma PopFront(w: bv64, q: seq<nat>)
    requires Holds(w, q)
    ensures FrontId(w) == if q == [] then 0 else q[0]
    ensures q != [] ==> Holds(w >> 4, q[1..])
  {
    hide Word, Get, Number, Nibble, FrontId;
    LowNibble(w);
    var w' := w >> 4;
    if q != [] {
      forall i: nat | i < 16
        ensures Nibble(w', i) == if i < 15 then Nibble(w, i + 1) else 0
      {
        ShiftedNibble(w, i);
      }
      forall i: nat | i < |q[1..]|
        ensures Nibble(w', i) == q[1..][i] && q[1..][i] != 0
      {
        assert q[1..][i] == q[i + 1];
      }
    }
  }

  lemma LowNibble(w: bv64)
    ensures FrontId(w) == Nibble(w, 0)
  {
    GetFirst(w);
  }

  lemma ShiftedNibble(w: bv64, i: nat)
    requires i < 16
    ensures Nibble(w >> 4, i) == if i < 15 then Nibble(w, i + 1) else 0
  {
    hide Get;
    if i < 15 {
      WordFacts(i);
      GetShifted(w, Word(i));
    } else {
      GetLast(w);
    }
  }

  /** MarkSlot: writing an id over the first zero nibble appends it to the queue. */
  lemma PushBack(w: bv64, q: seq<nat>, id: nat)
    requires Holds(w, q) && |q| < MAX_IDS && 1 <= id <= MAX_IDS
    ensures Holds(Set(w, Word(|q|), Word(id)), q + [id])
  {
    hide Word, Get, Set, Number, Nibble;
    var w' := Set(w, Word(|q|), Word(id));
    forall i: nat | i < 16
      ensures Nibble(w', i) == if i == |q| then id else Nibble(w, i)
    {
      SetNibble(w, |q|, id, i);
    }
  }

  lemma SetNibble(w: bv64, n: nat, id: nat, i: nat)
    requires n < 16 && id < 16 && i < 16
    ensures Nibble(Set(w, Word(n), Word(id)), i) == if i == n then id else Nibble(w, i)
  {
    hide Get, Set, Word, Number;
    WordFacts(n);
    WordFacts(i);
    WordFacts(id);
    GetSet(w, Word(n), Word(id), Word(i));
    if Word(n) == Word(i) {
      WordInjective(n, i);
    }
  }

  // ----- the search inside MarkSlot

  /** The index MarkSlot's scan of the first capacity nibbles comes back with. */
  function FirstEmpty(current: bv64, capacity: nat, i: nat): Option<nat>
    requires i <= capacity <= MAX_IDS
    decreases capacity - i
  {
    if i == capacity then None
    else if Nibble(current, i) == 0 then Some(i)
    else FirstEmpty(current, capacity, i + 1)
  }

  method FindEmpty(current: bv64, capacity: nat) returns (empty: Option<nat>)
    requires capacity <= MAX_IDS
    ensures empty == FirstEmpty(current, capacity, 0)
    ensures GapFree(current) ==> empty == if |Ids(current)| < capacity then Some(|Ids(current)|) else None
  {
    hide Get, Word, Number, GapFree, Ids, Nibble;
    if GapFree(current) {
      FirstEmptyIsLength(current, capacity);
    }
    for i := 0 to capacity
      invariant FirstEmpty(current, capacity, 0) == FirstEmpty(current, capacity, i)
    {
      NibbleIsZero(current, i);
      if Get(current, Word(i)) == 0 {
        return Some(i);
      }
    }
    return None;
  }

  lemma NibbleIsZero(w: bv64, i: nat)
    requires i < 16
    ensures Nibble(w, i) == 0 <==> Get(w, Word(i)) == 0
  {
  }

  lemma FirstEmptyIsLength(w: bv64, capacity: nat)
    requires GapFree(w) && capacity <= MAX_IDS
    ensures FirstEmpty(w, capacity, 0) == if |Ids(w)| < capacity then Some(|Ids(w)|) else None
  {
    FirstEmptyFrom(w, Ids(w), capacity, 0);
  }

  lemma {:induction false} FirstEmptyFrom(w: bv64, q: seq<nat>, capacity: nat, i: nat)
    requires Holds(w, q) && i <= capacity <= MAX_IDS && i <= |q|
    ensures FirstEmpty(w, capacity, i) == if |q| < capacity then Some(|q|) else None
    decreases capacity - i
  {
    hide Nibble;
    if i < capacity && i < |q| {
      FirstEmptyFrom(w, q, capacity, i + 1);
    }
  }
}
