/** mozilla::MPSCRingBufferBase as a state machine: any number of threads run Send and Recv in any
    interleaving of loads, compare-and-swaps (which may fail spuriously) and half-finished copies. */
module MpscQueues {
  import opened Basics
  import opened Wrappers
  import opened MpscWords

  /** One element of mData. A copy passes through Torn. */
  datatype Cell<T> = Unset | Torn | Whole(value: T)

  datatype Role<T> = Sender(value: T) | Receiver
  datatype Outcome<T> = Sent(value: T) | Received(cell: Cell<T>)

  /** Where a thread is: between calls, in UnmarkSlot, copying, or in MarkSlot. */
  datatype Pc<T> =
    | Idle
    | Unmarking(role: Role<T>, current: bv64)
    | Writing(value: T, id: nat)
    | HalfWritten(value: T, id: nat)
    | Reading(id: nat)
    | HalfRead(id: nat, seen: Cell<T>)
    | Loading(outcome: Outcome<T>, id: nat)
    | Marking(outcome: Outcome<T>, id: nat, current: bv64)
    | Crashed

  /** sent and received record the values in the order their Send committed to mOccupied, and in the
      order Recv returned them. */
  datatype System<T> = System(capacity: nat, free: bv64, occupied: bv64, data: seq<Cell<T>>,
                              threads: map<nat, Pc<T>>, sent: seq<T>, received: seq<Cell<T>>)

  /** What the scheduler and the environment choose. */
  datatype Action<T> = StartSend(value: T) | StartRecv | Go | SpuriousFailure

  function PcOf<T>(threads: map<nat, Pc<T>>, t: nat): Pc<T> {
    if t in threads then threads[t] else Idle
  }

  /** The slot id a thread owns between UnmarkSlot and MarkSlot, 0 if none. */
  function HeldId<T>(pc: Pc<T>): nat {
    match pc
    case Writing(_, id) => id
    case HalfWritten(_, id) => id
    case Reading(id) => id
    case HalfRead(id, _) => id
    case Loading(_, id) => id
    case Marking(_, id, _) => id
    case _ => 0
  }

  // ----- steps

  /** compare_exchange_weak on one of the words: success needs equality and may still fail spuriously. */
  predicate CasSucceeds<T(==)>(word: bv64, expected: bv64, a: Action<T>) {
    word == expected && a.Go?
  }

  function UnmarkStep<T(==)>(s: System<T>, t: nat, a: Action<T>, role: Role<T>, current: bv64): System<T> {
    var word := if role.Sender? then s.free else s.occupied;
    var index := FrontId(current);
    if index == 0 then
      s.(threads := s.threads[t := Idle])
    else if CasSucceeds(word, current, a) then
      match role
      case Sender(value) => s.(free := current >> 4, threads := s.threads[t := Writing(value, index)])
      case Receiver => s.(occupied := current >> 4, threads := s.threads[t := Reading(index)])
    else
      s.(threads := s.threads[t := Unmarking(role, word)])
  }

  function CopyStep<T(==)>(s: System<T>, t: nat, pc: Pc<T>): System<T>
    requires 1 <= HeldId(pc) <= |s.data|
  {
    var i := HeldId(pc) - 1;
    match pc
    case Writing(value, id) =>
      s.(data := s.data[i := Torn], threads := s.threads[t := HalfWritten(value, id)])
    case HalfWritten(value, id) =>
      s.(data := s.data[i := Whole(value)], threads := s.threads[t := Loading(Sent(value), id)])
    case Reading(id) =>
      s.(threads := s.threads[t := HalfRead(id, s.data[i])])
    case HalfRead(id, seen) =>
      // a value that changed between the two halves of the copy is torn
      s.(threads := s.threads[t := Loading(Received(if s.data[i] == seen then seen else Torn), id)])
    case _ => s
  }

  function MarkedWord<T>(s: System<T>, outcome: Outcome<T>): bv64 {
    if outcome.Sent? then s.occupied else s.free
  }

  function MarkStep<T(==)>(s: System<T>, t: nat, a: Action<T>, outcome: Outcome<T>, id: nat, current: bv64): System<T>
    requires s.capacity <= MAX_IDS && id < 16
  {
    match FirstEmpty(current, s.capacity, 0)
    case None => s.(threads := s.threads[t := Crashed])
    case Some(empty) =>
      FirstEmptyBound(current, s.capacity, 0);
      if CasSucceeds(MarkedWord(s, outcome), current, a) then
        var modified := Set(current, Word(empty), Word(id));
        match outcome
        case Sent(value) =>
          s.(occupied := modified, sent := s.sent + [value], threads := s.threads[t := Idle])
        case Received(cell) =>
          s.(free := modified, received := s.received + [cell], threads := s.threads[t := Idle])
      else
        s.(threads := s.threads[t := Marking(outcome, id, MarkedWord(s, outcome))])
  }

  lemma {:induction false} FirstEmptyBound(current: bv64, capacity: nat, i: nat)
    requires i <= capacity <= MAX_IDS
    ensures FirstEmpty(current, capacity, i).Some? ==> FirstEmpty(current, capacity, i).value < capacity
    decreases capacity - i
  {
    if i < capacity {
      FirstEmptyBound(current, capacity, i + 1);
    }
  }

  /** The word sizes every step relies on. */
  predicate WellSized<T>(s: System<T>) {
    s.capacity <= MAX_IDS && |s.data| == s.capacity
  }

  /** Thread t takes one step; an action that does not fit its program counter changes nothing. */
  function Step<T(==)>(s: System<T>, t: nat, a: Action<T>): System<T>
    requires WellSized(s)
  {
    var pc := PcOf(s.threads, t);
    match pc
    case Idle =>
      (match a
       case StartSend(value) => s.(threads := s.threads[t := Unmarking(Sender(value), s.free)])
       case StartRecv => s.(threads := s.threads[t := Unmarking(Receiver, s.occupied)])
       case _ => s)
    case Unmarking(role, current) => UnmarkStep(s, t, a, role, current)
    case Loading(outcome, id) => s.(threads := s.threads[t := Marking(outcome, id, MarkedWord(s, outcome))])
    case Marking(outcome, id, current) => if id < 16 then MarkStep(s, t, a, outcome, id, current) else s
    case Crashed => s
    case _ => if 1 <= HeldId(pc) <= |s.data| then CopyStep(s, t, pc) else s
  }

  // ----- the invariant: every id is in exactly one place

  ghost predicate InRange(q: seq<nat>, capacity: nat) {
    forall i :: 0 <= i < |q| ==> 1 <= q[i] <= capacity
  }

  /** Ids 1..capacity are split between the two queues and the threads. */
  ghost predicate Places<T>(capacity: nat, fq: seq<nat>, oq: seq<nat>, threads: map<nat, Pc<T>>) {
    && Distinct(fq) && InRange(fq, capacity)
    && Distinct(oq) && InRange(oq, capacity)
    && (forall i, j :: 0 <= i < |fq| && 0 <= j < |oq| ==> fq[i] != oq[j])
    && (forall t :: t in threads && HeldId(threads[t]) != 0 ==>
          && HeldId(threads[t]) <= capacity
          && HeldId(threads[t]) !in fq && HeldId(threads[t]) !in oq)
    && (forall t, u :: t in threads && u in threads && t != u && HeldId(threads[t]) != 0 ==>
          HeldId(threads[t]) != HeldId(threads[u]))
    && (forall id :: 1 <= id <= capacity ==> id in fq || id in oq || Held(threads, id))
  }

  ghost predicate Held<T>(threads: map<nat, Pc<T>>, id: nat) {
    exists t :: t in threads && HeldId(threads[t]) == id
  }

  lemma KeepPlaces<T>(capacity: nat, fq: seq<nat>, oq: seq<nat>, threads: map<nat, Pc<T>>, t: nat, pc: Pc<T>)
    requires Places(capacity, fq, oq, threads)
    requires HeldId(pc) == HeldId(PcOf(threads, t))
    ensures Places(capacity, fq, oq, threads[t := pc])
  {
    var threads' := threads[t := pc];
    forall id | 1 <= id <= capacity && id !in fq && id !in oq
      ensures Held(threads', id)
    {
      assert Held(threads, id);
      var u :| u in threads && HeldId(threads[u]) == id;
      assert HeldId(threads'[u]) == id;
    }
  }

  lemma PlacesSymmetric<T>(capacity: nat, fq: seq<nat>, oq: seq<nat>, threads: map<nat, Pc<T>>)
    requires Places(capacity, fq, oq, threads)
    ensures Places(capacity, oq, fq, threads)
  {
  }

  /** The front id of a queue moves to a thread that held none. */
  lemma TakePlaces<T>(capacity: nat, fq: seq<nat>, oq: seq<nat>, threads: map<nat, Pc<T>>, t: nat, pc: Pc<T>)
    requires Places(capacity, fq, oq, threads) && HeldId(PcOf(threads, t)) == 0
    requires fq != [] && HeldId(pc) == fq[0]
    ensures Places(capacity, fq[1..], oq, threads[t := pc])
  {
    hide HeldId;
    var threads', fq' := threads[t := pc], fq[1..];
    assert threads'[t] == pc;
    assert fq == [fq[0]] + fq';
    forall id | 1 <= id <= capacity && id !in fq' && id !in oq
      ensures Held(threads', id)
    {
      if id != fq[0] {
        assert Held(threads, id);
        var u :| u in threads && HeldId(threads[u]) == id;
        assert HeldId(threads'[u]) == id;
      }
    }
  }

  /** An id held by a thread goes to the back of a queue. */
  lemma GivePlaces<T>(capacity: nat, fq: seq<nat>, oq: seq<nat>, threads: map<nat, Pc<T>>, t: nat)
    requires Places(capacity, fq, oq, threads) && t in threads && HeldId(threads[t]) != 0
    ensures Places(capacity, fq + [HeldId(threads[t])], oq, threads[t := Idle])
  {
    var threads' := threads[t := Idle];
    var id0 := HeldId(threads[t]);
    var fq' := fq + [id0];
    forall id | 1 <= id <= capacity && id !in fq' && id !in oq
      ensures Held(threads', id)
    {
      assert id !in fq && id != id0;
      assert Held(threads, id);
      var u :| u in threads && HeldId(threads[u]) == id;
      assert HeldId(threads'[u]) == id;
    }
  }

  ghost function UpTo(n: nat): (r: set<nat>)
    ensures forall x :: x in r <==> 1 <= x <= n
    ensures |r| == n
  {
    if n == 0 then {} else UpTo(n - 1) + {n}
  }

  /** A queue of distinct ids 1..capacity that misses one of them is shorter than capacity. */
  lemma MissingOne(q: seq<nat>, capacity: nat, id: nat)
    requires Distinct(q) && InRange(q, capacity) && 1 <= id <= capacity && id !in q
    ensures |q| < capacity
  {
    DistinctSize(q);
    SubsetSize(Elements(q), UpTo(capacity) - {id});
  }

  // ----- the invariant: what each thread knows

  /** current is some word the thread read while it already owned id. */
  ghost predicate StaleOk(current: bv64, capacity: nat, id: nat) {
    GapFree(current) && Distinct(Ids(current)) && InRange(Ids(current), capacity) && id !in Ids(current)
  }

  /** The cell of the id in hand, as the thread at this point relies on it. */
  ghost predicate CellOk<T>(pc: Pc<T>, data: seq<Cell<T>>)
    requires HeldId(pc) <= |data|
  {
    match pc
    case HalfWritten(_, id) => id != 0 && data[id - 1] == Torn
    case Writing(_, id) => id != 0
    case Reading(id) => id != 0 && data[id - 1].Whole?
    case HalfRead(id, seen) => id != 0 && data[id - 1].Whole? && seen == data[id - 1]
    case Loading(outcome, id) => id != 0 && OutcomeOk(outcome, data[id - 1])
    case Marking(outcome, id, _) => id != 0 && OutcomeOk(outcome, data[id - 1])
    case _ => true
  }

  ghost predicate OutcomeOk<T>(outcome: Outcome<T>, cell: Cell<T>) {
    match outcome
    case Sent(value) => cell == Whole(value)
    case Received(received) => received.Whole? && cell == received
  }

  ghost predicate ThreadOk<T>(pc: Pc<T>, capacity: nat, data: seq<Cell<T>>) {
    && HeldId(pc) <= |data|
    && CellOk(pc, data)
    && !pc.Crashed?
    && (pc.Marking? ==> StaleOk(pc.current, capacity, pc.id))
  }

  ghost predicate ThreadsOk<T>(threads: map<nat, Pc<T>>, capacity: nat, data: seq<Cell<T>>) {
    forall t :: t in threads ==> ThreadOk(threads[t], capacity, data)
  }

  ghost predicate OccupiedWhole<T>(oq: seq<nat>, data: seq<Cell<T>>) {
    forall i :: 0 <= i < |oq| ==> 1 <= oq[i] <= |data| && data[oq[i] - 1].Whole?
  }

  ghost predicate Inv<T>(s: System<T>) {
    && WellSized(s)
    && GapFree(s.free) && GapFree(s.occupied)
    && Places(s.capacity, Ids(s.free), Ids(s.occupied), s.threads)
    && ThreadsOk(s.threads, s.capacity, s.data)
    && OccupiedWhole(Ids(s.occupied), s.data)
  }

  // ----- every step keeps the invariant

  lemma SetThread<T>(threads: map<nat, Pc<T>>, capacity: nat, data: seq<Cell<T>>, t: nat, pc: Pc<T>)
    requires forall u :: u in threads && u != t ==> ThreadOk(threads[u], capacity, data)
    requires ThreadOk(pc, capacity, data)
    ensures ThreadsOk(threads[t := pc], capacity, data)
  {
  }

  /** Writing the cell of an id in hand disturbs no other thread and no occupied slot. */
  lemma WriteCell<T>(s: System<T>, t: nat, c: Cell<T>)
    requires Inv(s) && t in s.threads && HeldId(s.threads[t]) != 0
    ensures var data' := s.data[HeldId(s.threads[t]) - 1 := c];
            && OccupiedWhole(Ids(s.occupied), data')
            && forall u :: u in s.threads && u != t ==> ThreadOk(s.threads[u], s.capacity, data')
  {
    hide GapFree, Ids, StaleOk;
    var id := HeldId(s.threads[t]);
    var data' := s.data[id - 1 := c];
    forall u | u in s.threads && u != t
      ensures ThreadOk(s.threads[u], s.capacity, data')
    {
      SameCell(s.threads[u], s.capacity, s.data, data');
    }
  }

  lemma SameCell<T>(pc: Pc<T>, capacity: nat, data: seq<Cell<T>>, data': seq<Cell<T>>)
    requires ThreadOk(pc, capacity, data) && |data| == |data'|
    requires HeldId(pc) != 0 ==> data'[HeldId(pc) - 1] == data[HeldId(pc) - 1]
    ensures ThreadOk(pc, capacity, data')
  {
    hide StaleOk;
  }

  lemma UnmarkKeepsInv<T>(s: System<T>, t: nat, a: Action<T>, role: Role<T>, current: bv64)
    requires Inv(s) && PcOf(s.threads, t) == Unmarking(role, current)
    ensures Inv(UnmarkStep(s, t, a, role, current))
  {
    hide GapFree, Ids, StaleOk, FrontId, Places, Holds;
    var fq, oq := Ids(s.free), Ids(s.occupied);
    var s' := UnmarkStep(s, t, a, role, current);
    if FrontId(current) == 0 || !CasSucceeds(if role.Sender? then s.free else s.occupied, current, a) {
      KeepPlaces(s.capacity, fq, oq, s.threads, t, PcOf(s'.threads, t));
      SetThread(s.threads, s.capacity, s.data, t, PcOf(s'.threads, t));
    } else if role.Sender? {
      TakeFront(current);
      PlacesRange(s.capacity, fq, oq, s.threads);
      TakePlaces(s.capacity, fq, oq, s.threads, t, Writing(role.value, fq[0]));
      SetThread(s.threads, s.capacity, s.data, t, Writing(role.value, fq[0]));
    } else {
      TakeFront(current);
      PlacesRange(s.capacity, fq, oq, s.threads);
      PlacesSymmetric(s.capacity, fq, oq, s.threads);
      TakePlaces(s.capacity, oq, fq, s.threads, t, Reading(oq[0]));
      PlacesSymmetric(s.capacity, oq[1..], fq, s'.threads);
      SetThread(s.threads, s.capacity, s.data, t, Reading(oq[0]));
    }
  }

  lemma PlacesRange<T>(capacity: nat, fq: seq<nat>, oq: seq<nat>, threads: map<nat, Pc<T>>)
    requires Places(capacity, fq, oq, threads)
    ensures InRange(fq, capacity) && InRange(oq, capacity)
  {
  }

  /** What UnmarkSlot's shift does to a gap-free word. */
  lemma TakeFront(w: bv64)
    requires GapFree(w) && FrontId(w) != 0
    ensures Ids(w) != [] && FrontId(w) == Ids(w)[0]
    ensures GapFree(w >> 4) && Ids(w >> 4) == Ids(w)[1..]
  {
    hide Holds, Ids;
    PopFront(w, Ids(w));
    HoldsUnique(w >> 4, Ids(w)[1..]);
  }

  /** What MarkSlot's Set does to a gap-free word with room. */
  lemma AppendId(w: bv64, capacity: nat, id: nat)
    requires StaleOk(w, capacity, id) && 1 <= id <= capacity <= MAX_IDS
    ensures FirstEmpty(w, capacity, 0) == Some(|Ids(w)|) && |Ids(w)| < capacity
    ensures var w' := Set(w, Word(|Ids(w)|), Word(id));
            GapFree(w') && Ids(w') == Ids(w) + [id]
  {
    hide Holds, Ids, Set, Word;
    MissingOne(Ids(w), capacity, id);
    FirstEmptyIsLength(w, capacity);
    PushBack(w, Ids(w), id);
    HoldsUnique(Set(w, Word(|Ids(w)|), Word(id)), Ids(w) + [id]);
  }

  lemma CopyKeepsInv<T>(s: System<T>, t: nat, pc: Pc<T>)
    requires Inv(s) && t in s.threads && s.threads[t] == pc
    requires pc.Writing? || pc.HalfWritten? || pc.Reading? || pc.HalfRead?
    ensures 1 <= HeldId(pc) <= |s.data| && Inv(CopyStep(s, t, pc))
    ensures var s' := CopyStep(s, t, pc);
            && s'.free == s.free && s'.occupied == s.occupied && |s'.data| == |s.data|
            && (forall i :: 0 <= i < |s.data| && i != HeldId(pc) - 1 ==> s'.data[i] == s.data[i])
            && s'.threads == s.threads[t := s'.threads[t]]
  {
    hide GapFree, Ids, StaleOk, Places;
    assert ThreadOk(pc, s.capacity, s.data);
    var s' := CopyStep(s, t, pc);
    KeepPlaces(s.capacity, Ids(s.free), Ids(s.occupied), s.threads, t, s'.threads[t]);
    WriteCell(s, t, s'.data[HeldId(pc) - 1]);
    SetThread(s.threads, s.capacity, s'.data, t, s'.threads[t]);
  }

  lemma LoadKeepsInv<T>(s: System<T>, t: nat, outcome: Outcome<T>, id: nat)
    requires Inv(s) && t in s.threads && s.threads[t] == Loading(outcome, id)
    ensures Inv(s.(threads := s.threads[t := Marking(outcome, id, MarkedWord(s, outcome))]))
  {
    hide GapFree, Ids;
    assert ThreadOk(s.threads[t], s.capacity, s.data);
    var pc' := Marking(outcome, id, MarkedWord(s, outcome));
    KeepPlaces(s.capacity, Ids(s.free), Ids(s.occupied), s.threads, t, pc');
    SetThread(s.threads, s.capacity, s.data, t, pc');
  }

  lemma MarkKeepsInv<T>(s: System<T>, t: nat, a: Action<T>, outcome: Outcome<T>, id: nat, current: bv64)
    requires Inv(s) && t in s.threads && s.threads[t] == Marking(outcome, id, current)
    ensures id < 16 && Inv(MarkStep(s, t, a, outcome, id, current))
  {
    hide GapFree, Ids, Set, Word, FirstEmpty, Places, StaleOk;
    var fq, oq := Ids(s.free), Ids(s.occupied);
    assert ThreadOk(s.threads[t], s.capacity, s.data);
    AppendId(current, s.capacity, id);
    var s' := MarkStep(s, t, a, outcome, id, current);
    if !CasSucceeds(MarkedWord(s, outcome), current, a) {
      KeepPlaces(s.capacity, fq, oq, s.threads, t, s'.threads[t]);
      NotInQueues(s, t);
      SetThread(s.threads, s.capacity, s.data, t, s'.threads[t]);
    } else {
      GiveBack(s, t, outcome.Sent?, id);
      SetThread(s.threads, s.capacity, s.data, t, Idle);
    }
  }

  /** Committing the id in hand to one of the queues keeps every id in one place. */
  lemma GiveBack<T>(s: System<T>, t: nat, sent: bool, id: nat)
    requires Places(s.capacity, Ids(s.free), Ids(s.occupied), s.threads)
    requires t in s.threads && id != 0 && HeldId(s.threads[t]) == id
    ensures var fq, oq := Ids(s.free), Ids(s.occupied);
            Places(s.capacity, if sent then fq else fq + [id], if sent then oq + [id] else oq, s.threads[t := Idle])
  {
    hide Ids, Places;
    var fq, oq := Ids(s.free), Ids(s.occupied);
    if sent {
      PlacesSymmetric(s.capacity, fq, oq, s.threads);
      GivePlaces(s.capacity, oq, fq, s.threads, t);
      PlacesSymmetric(s.capacity, oq + [id], fq, s.threads[t := Idle]);
    } else {
      GivePlaces(s.capacity, fq, oq, s.threads, t);
    }
  }

  /** A word read while an id is in hand does not contain it. */
  lemma NotInQueues<T>(s: System<T>, t: nat)
    requires Inv(s) && t in s.threads && HeldId(s.threads[t]) != 0
    ensures StaleOk(s.free, s.capacity, HeldId(s.threads[t]))
    ensures StaleOk(s.occupied, s.capacity, HeldId(s.threads[t]))
  {
    hide GapFree, Ids;
  }

  lemma StartKeepsInv<T>(s: System<T>, t: nat, pc: Pc<T>)
    requires Inv(s) && PcOf(s.threads, t).Idle? && pc.Unmarking?
    ensures Inv(s.(threads := s.threads[t := pc]))
  {
    hide GapFree, Ids, StaleOk;
    KeepPlaces(s.capacity, Ids(s.free), Ids(s.occupied), s.threads, t, pc);
    SetThread(s.threads, s.capacity, s.data, t, pc);
  }

  lemma StepKeepsInv<T>(s: System<T>, t: nat, a: Action<T>)
    requires Inv(s)
    ensures Inv(Step(s, t, a))
  {
    hide GapFree, Ids, StaleOk, Places, CopyStep, MarkStep, UnmarkStep;
    var pc := PcOf(s.threads, t);
    assert t in s.threads ==> ThreadOk(pc, s.capacity, s.data);
    match pc
    case Idle =>
      if a.StartSend? || a.StartRecv? {
        StartKeepsInv(s, t, if a.StartSend? then Unmarking(Sender(a.value), s.free) else Unmarking(Receiver, s.occupied));
      }
    case Unmarking(role, current) => UnmarkKeepsInv(s, t, a, role, current);
    case Loading(outcome, id) => LoadKeepsInv(s, t, outcome, id);
    case Marking(outcome, id, current) => MarkKeepsInv(s, t, a, outcome, id, current);
    case Crashed =>
    case _ => CopyKeepsInv(s, t, pc);
  }

  // ----- first in, first out

  predicate Receiving<T>(pc: Pc<T>) {
    match pc
    case Unmarking(role, _) => role.Receiver?
    case Reading(_) => true
    case HalfRead(_, _) => true
    case Loading(outcome, _) => outcome.Received?
    case Marking(outcome, _, _) => outcome.Received?
    case _ => false
  }

  /** The element a Recv has dequeued but not returned yet. */
  ghost function InFlight<T>(pc: Pc<T>, data: seq<Cell<T>>): seq<Cell<T>>
    requires HeldId(pc) <= |data|
  {
    match pc
    case Reading(id) => if id != 0 then [data[id - 1]] else []
    case HalfRead(_, seen) => [seen]
    case Loading(outcome, _) => if outcome.Received? then [outcome.cell] else []
    case Marking(outcome, _, _) => if outcome.Received? then [outcome.cell] else []
    case _ => []
  }

  /** The elements waiting in the queue, front first. */
  ghost function Values<T>(data: seq<Cell<T>>, q: seq<nat>): (r: seq<Cell<T>>)
    requires InRange(q, |data|)
    ensures |r| == |q|
    ensures forall i :: 0 <= i < |q| ==> r[i] == data[q[i] - 1]
  {
    if q == [] then [] else Values(data, q[..|q| - 1]) + [data[q[|q| - 1] - 1]]
  }

  ghost predicate OnlyConsumer<T>(threads: map<nat, Pc<T>>, c: nat) {
    forall t :: t in threads && Receiving(threads[t]) ==> t == c
  }

  ghost function Wholes<T>(values: seq<T>): seq<Cell<T>> {
    seq(|values|, i requires 0 <= i < |values| => Whole(values[i]))
  }

  /** Everything committed is, in order: returned, then in the consumer's hands, then waiting. */
  ghost predicate Fifo<T>(s: System<T>, c: nat) {
    && Inv(s)
    && OnlyConsumer(s.threads, c)
    && HeldId(PcOf(s.threads, c)) <= |s.data|
    && InRange(Ids(s.occupied), |s.data|)
    && Wholes(s.sent) == s.received + InFlight(PcOf(s.threads, c), s.data) + Values(s.data, Ids(s.occupied))
  }

  lemma ValuesTail<T>(data: seq<Cell<T>>, q: seq<nat>)
    requires InRange(q, |data|) && q != []
    ensures InRange(q[1..], |data|)
    ensures Values(data, q) == [data[q[0] - 1]] + Values(data, q[1..])
  {
    hide Values;
    var a, b := Values(data, q), [data[q[0] - 1]] + Values(data, q[1..]);
    forall i | 0 <= i < |q|
      ensures a[i] == b[i]
    {
      if i > 0 {
        assert q[1..][i - 1] == q[i];
      }
    }
  }

  lemma ValuesAppend<T>(data: seq<Cell<T>>, q: seq<nat>, id: nat)
    requires InRange(q, |data|) && 1 <= id <= |data|
    ensures InRange(q + [id], |data|)
    ensures Values(data, q + [id]) == Values(data, q) + [data[id - 1]]
  {
  }

  lemma ValuesUnchanged<T>(data: seq<Cell<T>>, data': seq<Cell<T>>, q: seq<nat>)
    requires |data| == |data'| && InRange(q, |data|)
    requires forall i :: 0 <= i < |q| ==> data'[q[i] - 1] == data[q[i] - 1]
    ensures Values(data', q) == Values(data, q)
  {
  }

  lemma Ranges<T>(s: System<T>)
    requires Inv(s)
    ensures WellSized(s) && GapFree(s.free) && GapFree(s.occupied)
    ensures InRange(Ids(s.occupied), |s.data|)
    ensures forall t :: t in s.threads ==> ThreadOk(s.threads[t], s.capacity, s.data)
  {
    hide GapFree, Ids, ThreadOk;
  }

  lemma HeldElsewhere<T>(s: System<T>, t: nat)
    requires Inv(s) && t in s.threads && HeldId(s.threads[t]) != 0
    ensures HeldId(s.threads[t]) !in Ids(s.occupied)
    ensures forall u :: u in s.threads && u != t ==> HeldId(s.threads[u]) != HeldId(s.threads[t])
  {
    hide GapFree, Ids, ThreadOk;
  }

  /** A step that only moves thread t, without touching the element in flight, keeps the order. */
  lemma MoveKeepsFifo<T>(s: System<T>, s': System<T>, t: nat, pc': Pc<T>, c: nat)
    requires Fifo(s, c) && Inv(s')
    requires s'.threads == s.threads[t := pc'] && s'.data == s.data && s'.occupied == s.occupied
    requires s'.sent == s.sent && s'.received == s.received
    requires HeldId(PcOf(s.threads, t)) <= |s.data| && HeldId(pc') <= |s.data|
    requires InFlight(pc', s.data) == InFlight(PcOf(s.threads, t), s.data)
    requires Receiving(pc') ==> t == c
    ensures Fifo(s', c)
  {
    hide GapFree, Ids, Inv, ThreadOk, Values, InFlight, Receiving, HeldId;
    assert PcOf(s'.threads, c) == if t == c then pc' else PcOf(s.threads, c);
  }

  lemma UnmarkKeepsFifo<T>(s: System<T>, t: nat, a: Action<T>, role: Role<T>, current: bv64, c: nat)
    requires Fifo(s, c) && PcOf(s.threads, t) == Unmarking(role, current)
    ensures Fifo(UnmarkStep(s, t, a, role, current), c)
  {
    hide UnmarkStep, Fifo, FrontId;
    if FrontId(current) != 0 && role.Receiver? && CasSucceeds(s.occupied, current, a) {
      DequeueKeepsFifo(s, t, a, current, c);
    } else {
      AcquireKeepsFifo(s, t, a, role, current, c);
    }
  }

  lemma AcquireKeepsFifo<T>(s: System<T>, t: nat, a: Action<T>, role: Role<T>, current: bv64, c: nat)
    requires Fifo(s, c) && PcOf(s.threads, t) == Unmarking(role, current)
    requires FrontId(current) == 0 || role.Sender? || !CasSucceeds(s.occupied, current, a)
    ensures Fifo(UnmarkStep(s, t, a, role, current), c)
  {
    hide GapFree, Ids, Inv, Values, FrontId, ThreadOk, Wholes;
    var s' := UnmarkStep(s, t, a, role, current);
    UnmarkKeepsInv(s, t, a, role, current);
    HeldInRange(s', t);
    MoveKeepsFifo(s, s', t, PcOf(s'.threads, t), c);
  }

  lemma HeldInRange<T>(s: System<T>, t: nat)
    requires Inv(s)
    ensures InRange(Ids(s.occupied), |s.data|) && HeldId(PcOf(s.threads, t)) <= |s.data|
  {
    hide GapFree, Ids;
  }

  lemma DequeueKeepsFifo<T>(s: System<T>, t: nat, a: Action<T>, current: bv64, c: nat)
    requires Fifo(s, c) && PcOf(s.threads, t) == Unmarking(Receiver, current)
    requires FrontId(current) != 0 && CasSucceeds(s.occupied, current, a)
    ensures Fifo(UnmarkStep(s, t, a, Receiver, current), c)
  {
    hide GapFree, Ids, Inv, FrontId, Values, ThreadOk, Wholes;
    var s' := UnmarkStep(s, t, a, Receiver, current);
    UnmarkKeepsInv(s, t, a, Receiver, current);
    FrontLeaves(s, current);
    assert t == c;
    assert InFlight(PcOf(s.threads, c), s.data) == [];
    assert InFlight(PcOf(s'.threads, c), s'.data) == [s.data[FrontId(current) - 1]];
  }

  lemma FrontLeaves<T>(s: System<T>, current: bv64)
    requires Inv(s) && s.occupied == current && FrontId(current) != 0
    ensures InRange(Ids(current), |s.data|) && InRange(Ids(current >> 4), |s.data|)
    ensures FrontId(current) <= |s.data|
    ensures Values(s.data, Ids(current)) == [s.data[FrontId(current) - 1]] + Values(s.data, Ids(current >> 4))
  {
    hide GapFree, Ids, FrontId, Values, ThreadOk;
    TakeFront(current);
    ValuesTail(s.data, Ids(current));
  }

  lemma CopyKeepsFifo<T>(s: System<T>, t: nat, pc: Pc<T>, c: nat)
    requires Fifo(s, c) && t in s.threads && s.threads[t] == pc
    requires pc.Writing? || pc.HalfWritten? || pc.Reading? || pc.HalfRead?
    ensures 1 <= HeldId(pc) <= |s.data| && Fifo(CopyStep(s, t, pc), c)
  {
    hide GapFree, Ids, Inv, StaleOk, Values;
    CopyKeepsInv(s, t, pc);
    Ranges(s);
    var s' := CopyStep(s, t, pc);
    assert ThreadOk(pc, s.capacity, s.data);
    if pc.Reading? || pc.HalfRead? {
      MoveKeepsFifo(s, s', t, s'.threads[t], c);
    } else {
      WriteKeepsFifo(s, s', t, s'.threads[t], s'.data[HeldId(pc) - 1], c);
    }
  }

  lemma WriteKeepsFifo<T>(s: System<T>, s': System<T>, t: nat, pc': Pc<T>, cell: Cell<T>, c: nat)
    requires Fifo(s, c) && Inv(s')
    requires t in s.threads && 1 <= HeldId(s.threads[t]) <= |s.data| && !Receiving(s.threads[t]) && !Receiving(pc')
    requires HeldId(pc') == HeldId(s.threads[t])
    requires s' == s.(data := s.data[HeldId(pc') - 1 := cell], threads := s.threads[t := pc'])
    ensures Fifo(s', c)
  {
    hide GapFree, Ids, Inv, Values, ThreadOk;
    Ranges(s);
    HeldElsewhere(s, t);
    ValuesUnchanged(s.data, s'.data, Ids(s.occupied));
    assert OnlyConsumer(s'.threads, c);
    assert InFlight(PcOf(s'.threads, c), s'.data) == InFlight(PcOf(s.threads, c), s.data);
  }

  lemma MarkKeepsFifo<T>(s: System<T>, t: nat, a: Action<T>, outcome: Outcome<T>, id: nat, current: bv64, c: nat)
    requires Fifo(s, c) && t in s.threads && s.threads[t] == Marking(outcome, id, current)
    ensures id < 16 && Fifo(MarkStep(s, t, a, outcome, id, current), c)
  {
    hide GapFree, Ids, Inv, FirstEmpty, Set, Word, StaleOk, Values, Receiving, InFlight;
    MarkKeepsInv(s, t, a, outcome, id, current);
    Ranges(s);
    assert ThreadOk(s.threads[t], s.capacity, s.data);
    AppendId(current, s.capacity, id);
    var s' := MarkStep(s, t, a, outcome, id, current);
    if !CasSucceeds(MarkedWord(s, outcome), current, a) {
      MarkingInFlight(outcome, id, current, s'.threads[t].current, s.data);
      MoveKeepsFifo(s, s', t, s'.threads[t], c);
    } else if outcome.Sent? {
      CommitKeepsFifo(s, s', t, outcome, id, current, c);
    } else {
      ReturnKeepsFifo(s, s', t, outcome, id, current, c);
    }
  }

  lemma MarkingInFlight<T>(outcome: Outcome<T>, id: nat, w: bv64, w': bv64, data: seq<Cell<T>>)
    requires id <= |data|
    ensures InFlight(Marking(outcome, id, w), data) == InFlight(Marking(outcome, id, w'), data)
    ensures Receiving(Marking(outcome, id, w)) == Receiving(Marking(outcome, id, w')) == outcome.Received?
  {
  }

  /** A Send commits: its value joins the end of the queue. */
  lemma CommitKeepsFifo<T>(s: System<T>, s': System<T>, t: nat, outcome: Outcome<T>, id: nat, current: bv64, c: nat)
    requires Fifo(s, c) && Inv(s') && outcome.Sent?
    requires t in s.threads && s.threads[t] == Marking(outcome, id, current)
    requires s'.threads == s.threads[t := Idle] && s'.data == s.data && s'.received == s.received
    requires 1 <= id <= |s.data| && s.data[id - 1] == Whole(outcome.value)
    requires Ids(s'.occupied) == Ids(s.occupied) + [id] && s'.sent == s.sent + [outcome.value]
    ensures Fifo(s', c)
  {
    hide GapFree, Ids, Inv, Values;
    ValuesAppend(s.data, Ids(s.occupied), id);
    assert Wholes(s'.sent) == Wholes(s.sent) + [Whole(outcome.value)];
    assert InFlight(PcOf(s'.threads, c), s'.data) == InFlight(PcOf(s.threads, c), s.data);
    assert OnlyConsumer(s'.threads, c);
  }

  /** A Recv returns: the element in flight joins the received ones. */
  lemma ReturnKeepsFifo<T>(s: System<T>, s': System<T>, t: nat, outcome: Outcome<T>, id: nat, current: bv64, c: nat)
    requires Fifo(s, c) && Inv(s') && outcome.Received?
    requires t in s.threads && s.threads[t] == Marking(outcome, id, current)
    requires s'.threads == s.threads[t := Idle] && s'.data == s.data && s'.occupied == s.occupied
    requires s'.sent == s.sent && s'.received == s.received + [outcome.cell]
    ensures Fifo(s', c)
  {
    hide GapFree, Ids, Inv, Values;
    assert t == c;
    assert InFlight(PcOf(s.threads, c), s.data) == [outcome.cell];
    assert InFlight(PcOf(s'.threads, c), s.data) == [];
    assert OnlyConsumer(s'.threads, c);
  }

  lemma StepKeepsFifo<T>(s: System<T>, t: nat, a: Action<T>, c: nat)
    requires Fifo(s, c) && (a.StartRecv? ==> t == c)
    ensures Fifo(Step(s, t, a), c)
  {
    hide GapFree, Ids, Inv, CopyStep, MarkStep, UnmarkStep, Fifo;
    FifoInv(s, c);
    Ranges(s);
    var pc := PcOf(s.threads, t);
    match pc
    case Idle => OtherStepKeepsFifo(s, t, a, c);
    case Unmarking(role, current) => UnmarkKeepsFifo(s, t, a, role, current, c);
    case Loading(outcome, id) => OtherStepKeepsFifo(s, t, a, c);
    case Marking(outcome, id, current) => MarkKeepsFifo(s, t, a, outcome, id, current, c);
    case Crashed =>
    case _ => CopyKeepsFifo(s, t, pc, c);
  }

  lemma FifoInv<T>(s: System<T>, c: nat)
    requires Fifo(s, c)
    ensures Inv(s)
  {
  }

  lemma OtherStepKeepsFifo<T>(s: System<T>, t: nat, a: Action<T>, c: nat)
    requires Fifo(s, c) && (a.StartRecv? ==> t == c)
    requires PcOf(s.threads, t).Idle? || PcOf(s.threads, t).Loading?
    ensures Fifo(Step(s, t, a), c)
  {
    hide GapFree, Ids, Inv;
    StepKeepsInv(s, t, a);
    Ranges(s);
    Ranges(Step(s, t, a));
  }

  // ----- runs

  /** The free word after the constructor has put the ids 1 to n in it, alone in the system. */
  function InitialFree(n: nat, capacity: nat): bv64
    requires n <= capacity <= MAX_IDS
  {
    if n == 0 then 0
    else
      MarkAlone(InitialFree(n - 1, capacity), capacity, n)
  }

  /** Marking a slot with no other thread around. */
  function MarkAlone(w: bv64, capacity: nat, id: nat): bv64
    requires capacity <= MAX_IDS && id < 16
  {
    FirstEmptyBound(w, capacity, 0);
    match FirstEmpty(w, capacity, 0)
    case Some(empty) => Set(w, Word(empty), Word(id))
    case None => w
  }

  lemma MarkAloneAppends(w: bv64, capacity: nat, n: nat)
    requires GapFree(w) && Ids(w) == FirstIds(n) && n < capacity <= MAX_IDS
    ensures GapFree(MarkAlone(w, capacity, n + 1)) && Ids(MarkAlone(w, capacity, n + 1)) == FirstIds(n + 1)
  {
    hide GapFree, Ids, Holds, Set, Word, FirstEmpty;
    FirstIdsMiss(n, capacity);
    AppendId(w, capacity, n + 1);
  }

  ghost function FirstIds(n: nat): (q: seq<nat>)
    ensures |q| == n && forall i :: 0 <= i < n ==> q[i] == i + 1
  {
    if n == 0 then [] else FirstIds(n - 1) + [n]
  }

  lemma FirstIdsMiss(n: nat, capacity: nat)
    requires n < capacity
    ensures Distinct(FirstIds(n)) && InRange(FirstIds(n), capacity) && n + 1 !in FirstIds(n)
  {
    hide FirstIds;
  }

  lemma {:induction false} InitialFreeHolds(n: nat, capacity: nat)
    requires n <= capacity <= MAX_IDS
    ensures GapFree(InitialFree(n, capacity)) && Ids(InitialFree(n, capacity)) == FirstIds(n)
  {
    hide GapFree, Ids, Holds, MarkAlone;
    if n == 0 {
      EmptyWord();
      HoldsUnique(0, []);
    } else {
      InitialFreeHolds(n - 1, capacity);
      MarkAloneAppends(InitialFree(n - 1, capacity), capacity, n - 1);
    }
  }

  method BuildFree(capacity: nat) returns (free: bv64)
    requires capacity <= MAX_IDS
    ensures free == InitialFree(capacity, capacity)
    ensures GapFree(free) && Ids(free) == FirstIds(capacity)
  {
    hide GapFree, Ids, Set, Word, FirstEmpty;
    free := 0;
    for i := 0 to capacity
      invariant free == InitialFree(i, capacity)
    {
      var empty := FindEmpty(free, capacity);
      FirstEmptyBound(free, capacity, 0);
      match empty {
        case Some(e) => free := Set(free, Word(e), Word(i + 1));
        case None =>
      }
    }
    InitialFreeHolds(capacity, capacity);
  }

  function Init<T>(capacity: nat): System<T>
    requires capacity <= MAX_IDS
  {
    System(capacity, InitialFree(capacity, capacity), 0, seq(capacity, _ => Unset), map[], [], [])
  }

  function Run<T(==)>(s: System<T>, steps: seq<(nat, Action<T>)>): (r: System<T>)
    requires WellSized(s)
    ensures WellSized(r)
  {
    if steps == [] then s
    else
      var n := |steps| - 1;
      var before := Run(s, steps[..n]);
      StepKeepsSizes(before, steps[n].0, steps[n].1);
      Step(before, steps[n].0, steps[n].1)
  }

  lemma StepKeepsSizes<T>(s: System<T>, t: nat, a: Action<T>)
    requires WellSized(s)
    ensures WellSized(Step(s, t, a)) && Step(s, t, a).capacity == s.capacity
  {
    hide FirstEmpty, FrontId, Set, Word, UnmarkStep, MarkStep, CopyStep;
    var pc := PcOf(s.threads, t);
    match pc
    case Unmarking(role, current) => UnmarkSizes(s, t, a, role, current);
    case Marking(outcome, id, current) =>
      if id < 16 {
        MarkSizes(s, t, a, outcome, id, current);
      }
    case _ =>
      if 1 <= HeldId(pc) <= |s.data| {
        CopySizes(s, t, pc);
      }
  }

  lemma UnmarkSizes<T>(s: System<T>, t: nat, a: Action<T>, role: Role<T>, current: bv64)
    ensures var s' := UnmarkStep(s, t, a, role, current); s'.capacity == s.capacity && s'.data == s.data
  {
    hide FrontId, CasSucceeds;
  }

  lemma MarkSizes<T>(s: System<T>, t: nat, a: Action<T>, outcome: Outcome<T>, id: nat, current: bv64)
    requires s.capacity <= MAX_IDS && id < 16
    ensures var s' := MarkStep(s, t, a, outcome, id, current); s'.capacity == s.capacity && s'.data == s.data
  {
    hide FirstEmpty, Set, Word;
    FirstEmptyBound(current, s.capacity, 0);
  }

  lemma CopySizes<T>(s: System<T>, t: nat, pc: Pc<T>)
    requires 1 <= HeldId(pc) <= |s.data|
    ensures var s' := CopyStep(s, t, pc); s'.capacity == s.capacity && |s'.data| == |s.data|
  {
    match pc
    case Writing(_, _) =>
    case HalfWritten(_, _) =>
    case Reading(_) =>
    case HalfRead(_, _) =>
    case _ =>
  }

  lemma InitInv<T>(capacity: nat, c: nat)
    requires capacity <= MAX_IDS
    ensures Fifo(Init<T>(capacity), c)
  {
    hide GapFree, Ids, FirstIds, InitialFree;
    InitialFreeHolds(capacity, capacity);
    EmptyWord();
    HoldsUnique(0, []);
    AllFree<T>(capacity);
  }

  /** At first every id is free and no thread holds any. */
  lemma AllFree<T>(capacity: nat)
    requires capacity <= MAX_IDS
    ensures Places<T>(capacity, FirstIds(capacity), [], map[])
  {
    forall id: nat | 1 <= id <= capacity
      ensures id in FirstIds(capacity)
    {
      assert FirstIds(capacity)[id - 1] == id;
    }
  }

  /** The number of places an id is in: entries of the two words and threads that hold it. */
  ghost predicate ExactlyOnePlace<T>(s: System<T>, id: nat) {
    var inFree, inOccupied, held := id in Ids(s.free), id in Ids(s.occupied), Held(s.threads, id);
    && (inFree || inOccupied || held)
    && !(inFree && inOccupied) && !(inFree && held) && !(inOccupied && held)
    && (forall i, j :: 0 <= i < j < |Ids(s.free)| ==> !(Ids(s.free)[i] == id && Ids(s.free)[j] == id))
    && (forall i, j :: 0 <= i < j < |Ids(s.occupied)| ==> !(Ids(s.occupied)[i] == id && Ids(s.occupied)[j] == id))
    && (forall t, u :: t in s.threads && u in s.threads && HeldId(s.threads[t]) == id && HeldId(s.threads[u]) == id ==> t == u)
  }

  lemma {:induction false} RunKeepsInv<T>(capacity: nat, steps: seq<(nat, Action<T>)>)
    requires capacity <= MAX_IDS
    ensures Inv(Run(Init<T>(capacity), steps)) && Run(Init<T>(capacity), steps).capacity == capacity
  {
    hide Inv, Step, Init;
    if steps == [] {
      InitInv<T>(capacity, 0);
      FifoInv(Init<T>(capacity), 0);
      InitCapacity<T>(capacity);
    } else {
      var n := |steps| - 1;
      RunKeepsInv(capacity, steps[..n]);
      InitCapacity<T>(capacity);
      var before := Run(Init<T>(capacity), steps[..n]);
      StepKeepsInv(before, steps[n].0, steps[n].1);
      StepKeepsSizes(before, steps[n].0, steps[n].1);
    }
  }

  lemma InitCapacity<T>(capacity: nat)
    requires capacity <= MAX_IDS
    ensures WellSized(Init<T>(capacity)) && Init<T>(capacity).capacity == capacity
  {
  }

  /** In every interleaving of any number of threads: both words are gap-free, every id is in exactly one
      place, and no MarkSlot finds its word full. */
  lemma SlotsNeverLost<T>(capacity: nat, steps: seq<(nat, Action<T>)>)
    requires capacity <= MAX_IDS
    ensures var s := Run(Init<T>(capacity), steps);
            && GapFree(s.free) && GapFree(s.occupied)
            && (forall id: nat :: 1 <= id <= capacity ==> ExactlyOnePlace(s, id))
            && (forall t :: !PcOf(s.threads, t).Crashed?)
  {
    hide GapFree, Ids, Step, Run, Init;
    InitCapacity<T>(capacity);
    RunKeepsInv(capacity, steps);
    var s := Run(Init<T>(capacity), steps);
    assert forall t :: t in s.threads ==> ThreadOk(s.threads[t], s.capacity, s.data);
    forall id: nat | 1 <= id <= capacity
      ensures ExactlyOnePlace(s, id)
    {
    }
  }

  ghost predicate OneConsumer<T>(steps: seq<(nat, Action<T>)>, c: nat) {
    forall i :: 0 <= i < |steps| && steps[i].1.StartRecv? ==> steps[i].0 == c
  }

  lemma {:induction false} RunKeepsFifo<T>(capacity: nat, steps: seq<(nat, Action<T>)>, c: nat)
    requires capacity <= MAX_IDS && OneConsumer(steps, c)
    ensures Fifo(Run(Init<T>(capacity), steps), c)
  {
    hide Fifo, Step, Init;
    InitCapacity<T>(capacity);
    if steps == [] {
      InitInv<T>(capacity, c);
    } else {
      var n := |steps| - 1;
      RunKeepsFifo(capacity, steps[..n], c);
      StepKeepsFifo(Run(Init<T>(capacity), steps[..n]), steps[n].0, steps[n].1, c);
    }
  }

  /** With one consumer, Recv has returned a prefix of the values in commit order, each of them whole; the
      rest is the element in the consumer's hands followed by the occupied slots. */
  lemma ReceivedIsPrefixOfSent<T>(capacity: nat, steps: seq<(nat, Action<T>)>, c: nat)
    requires capacity <= MAX_IDS && OneConsumer(steps, c)
    ensures var s := Run(Init<T>(capacity), steps);
            && |s.received| <= |s.sent|
            && (forall i :: 0 <= i < |s.received| ==> s.received[i] == Whole(s.sent[i]))
            && InRange(Ids(s.occupied), |s.data|) && HeldId(PcOf(s.threads, c)) <= |s.data|
            && Wholes(s.sent[|s.received|..]) == InFlight(PcOf(s.threads, c), s.data) + Values(s.data, Ids(s.occupied))
  {
    hide GapFree, Ids, Step, Run, Init, Inv, Values, InFlight;
    InitCapacity<T>(capacity);
    RunKeepsFifo(capacity, steps, c);
    var s := Run(Init<T>(capacity), steps);
    var rest := InFlight(PcOf(s.threads, c), s.data) + Values(s.data, Ids(s.occupied));
    assert Wholes(s.sent) == s.received + rest;
    assert forall i :: 0 <= i < |s.received| ==> Wholes(s.sent)[i] == s.received[i];
    assert forall i :: 0 <= i < |rest| ==> Wholes(s.sent)[|s.received| + i] == rest[i];
  }
}
