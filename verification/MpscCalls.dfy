/** Calls on the queue from their start to their end: what a call that comes back empty-handed has seen,
    and what a call does that no other thread disturbs. */
module MpscCalls {
  import opened Wrappers
  import opened MpscWords
  import opened MpscQueues

  /** The word a call takes its slot from. */
  function WordOf<T>(s: System<T>, role: Role<T>): bv64 {
    if role.Sender? then s.free else s.occupied
  }

  // ----- single steps

  /** UnmarkSlot's step: empty-handed, with a slot, or with the word read anew. */
  lemma UnmarkMoves<T>(s: System<T>, t: nat, a: Action<T>, role: Role<T>, current: bv64)
    ensures var s' := UnmarkStep(s, t, a, role, current);
            var pc' := PcOf(s'.threads, t);
            && s'.threads == s.threads[t := pc'] && s'.sent == s.sent && s'.received == s.received
            && (pc'.Idle? <==> FrontId(current) == 0)
            && (pc'.Idle? ==> s' == s.(threads := s.threads[t := Idle]))
            && (pc'.Unmarking? ==> pc' == Unmarking(role, WordOf(s, role)))
  {
    hide FrontId, CasSucceeds;
    SetTwice(s.threads, t, PcOf(UnmarkStep(s, t, a, role, current).threads, t));
    if FrontId(current) != 0 && CasSucceeds(WordOf(s, role), current, a) {
      match role
      case Sender(value) =>
      case Receiver =>
    }
  }

  lemma SetTwice<T>(threads: map<nat, Pc<T>>, t: nat, pc: Pc<T>)
    ensures threads[t := pc][t] == pc && PcOf(threads[t := pc], t) == pc
  {
  }

  lemma CopyMoves<T>(s: System<T>, t: nat, pc: Pc<T>)
    requires 1 <= HeldId(pc) <= |s.data| && !pc.Loading? && !pc.Marking?
    ensures var s' := CopyStep(s, t, pc);
            s'.threads == s.threads[t := PcOf(s'.threads, t)] && !PcOf(s'.threads, t).Idle? && !PcOf(s'.threads, t).Unmarking?
  {
    var i := HeldId(pc) - 1;
    match pc
    case Writing(value, id) => SetTwice(s.threads, t, HalfWritten(value, id));
    case HalfWritten(value, id) => SetTwice(s.threads, t, Loading(Sent(value), id));
    case Reading(id) => SetTwice(s.threads, t, HalfRead(id, s.data[i]));
    case HalfRead(id, seen) => SetTwice(s.threads, t, Loading(Received(if s.data[i] == seen then seen else Torn), id));
  }

  /** MarkSlot's step: back to Idle only with an addition to the log. */
  lemma MarkMoves<T>(s: System<T>, t: nat, a: Action<T>, outcome: Outcome<T>, id: nat, current: bv64)
    requires s.capacity <= MAX_IDS && id < 16
    ensures var s' := MarkStep(s, t, a, outcome, id, current);
            && s'.threads == s.threads[t := PcOf(s'.threads, t)] && !PcOf(s'.threads, t).Unmarking?
            && (PcOf(s'.threads, t).Idle? ==>
                  && s'.sent == s.sent + (if outcome.Sent? then [outcome.value] else [])
                  && s'.received == s.received + (if outcome.Received? then [outcome.cell] else []))
  {
    hide FirstEmpty, Set, Word, CasSucceeds;
    FirstEmptyBound(current, s.capacity, 0);
  }

  /** What a step of thread t does to where t is and to the logs. */
  lemma StepMoves<T>(s: System<T>, t: nat, a: Action<T>)
    requires WellSized(s)
    ensures var pc, s', pc' := PcOf(s.threads, t), Step(s, t, a), PcOf(Step(s, t, a).threads, t);
            && (s' == s || s'.threads == s.threads[t := pc'])
            && (pc'.Unmarking? && s' != s ==> pc'.current == WordOf(s, pc'.role) && (pc.Idle? || (pc.Unmarking? && pc.role == pc'.role)))
            && (!pc.Idle? && pc'.Idle? ==>
                  if pc.Unmarking? then FrontId(pc.current) == 0 && s' == s.(threads := s.threads[t := Idle])
                  else
                    && pc.Marking?
                    && s'.sent == s.sent + (if pc.outcome.Sent? then [pc.outcome.value] else [])
                    && s'.received == s.received + (if pc.outcome.Received? then [pc.outcome.cell] else []))
  {
    hide FirstEmpty, FrontId, Set, Word, UnmarkStep, MarkStep, CopyStep;
    var pc := PcOf(s.threads, t);
    match pc
    case Unmarking(role, current) => UnmarkMoves(s, t, a, role, current);
    case Marking(outcome, id, current) =>
      if id < 16 {
        MarkMoves(s, t, a, outcome, id, current);
      }
    case Loading(outcome, id) =>
    case Idle =>
    case _ =>
      if 1 <= HeldId(pc) <= |s.data| {
        CopyMoves(s, t, pc);
      }
  }

  lemma UnmarkGo<T>(s: System<T>, t: nat, role: Role<T>, current: bv64)
    requires FrontId(current) != 0 && current == WordOf(s, role)
    ensures UnmarkStep(s, t, Go, role, current) ==
            match role
            case Sender(value) => s.(free := current >> 4, threads := s.threads[t := Writing(value, FrontId(current))])
            case Receiver => s.(occupied := current >> 4, threads := s.threads[t := Reading(FrontId(current))])
  {
    hide FrontId;
  }

  /** What taking the front id leaves behind. */
  ghost predicate Takes<T>(s: System<T>, t: nat, role: Role<T>, s': System<T>) {
    var q := Ids(WordOf(s, role));
    q != [] &&
    match role
    case Sender(value) =>
      s' == s.(free := s'.free, threads := s.threads[t := Writing(value, q[0])]) && Ids(s'.free) == q[1..]
    case Receiver =>
      s' == s.(occupied := s'.occupied, threads := s.threads[t := Reading(q[0])]) && Ids(s'.occupied) == q[1..]
  }

  /** A word with a slot in it, unchanged since it was read, gives up exactly its front id. */
  lemma GoTakesFront<T>(s: System<T>, t: nat, role: Role<T>, current: bv64)
    requires Inv(s) && PcOf(s.threads, t) == Unmarking(role, current) && current == WordOf(s, role) && Ids(current) != []
    ensures Takes(s, t, role, Step(s, t, Go))
  {
    hide GapFree, Ids, FirstEmpty, Set, Places, FrontId, UnmarkStep, MarkStep, CopyStep, ThreadsOk, OccupiedWhole;
    FrontIsThere(current);
    TakeFront(current);
    UnmarkGo(s, t, role, current);
    match role
    case Sender(value) =>
    case Receiver =>
  }

  lemma FrontIsThere(w: bv64)
    requires GapFree(w)
    ensures FrontId(w) == 0 <==> Ids(w) == []
  {
    hide Ids, Holds;
    PopFront(w, Ids(w));
    if Ids(w) != [] {
      IdsAreNotZero(w, Ids(w));
    }
  }

  lemma IdsAreNotZero(w: bv64, q: seq<nat>)
    requires Holds(w, q) && q != []
    ensures q[0] != 0
  {
  }

  /** A word with an id in hand, unchanged since it was read, takes it at its end. */
  lemma GoAppends<T>(s: System<T>, t: nat, outcome: Outcome<T>, id: nat, current: bv64)
    requires Inv(s) && PcOf(s.threads, t) == Marking(outcome, id, current) && current == MarkedWord(s, outcome)
    ensures var s' := Step(s, t, Go);
            && s'.threads == s.threads[t := Idle] && s'.data == s.data && s'.capacity == s.capacity
            && Ids(MarkedWord(s', outcome)) == Ids(current) + [id]
            && (if outcome.Sent? then s'.free == s.free && s'.sent == s.sent + [outcome.value] && s'.received == s.received
                else s'.occupied == s.occupied && s'.received == s.received + [outcome.cell] && s'.sent == s.sent)
  {
    hide GapFree, Ids, FirstEmpty, Set, Word, Places, StaleOk;
    assert ThreadOk(s.threads[t], s.capacity, s.data);
    HeldInCapacity(s, t);
    AppendId(current, s.capacity, id);
  }

  lemma HeldInCapacity<T>(s: System<T>, t: nat)
    requires Inv(s) && t in s.threads && HeldId(s.threads[t]) != 0
    ensures HeldId(s.threads[t]) <= s.capacity <= MAX_IDS
  {
    hide GapFree, Ids;
  }

  // ----- runs

  /** Step j read the word that t still holds at the end, and t has not moved on since. */
  ghost predicate LastLoad<T>(capacity: nat, steps: seq<(nat, Action<T>)>, t: nat, role: Role<T>, current: bv64, j: nat)
    requires capacity <= MAX_IDS && j < |steps|
  {
    InitCapacity<T>(capacity);
    && steps[j].0 == t && WordOf(Run(Init<T>(capacity), steps[..j]), role) == current
    && forall i :: j < i <= |steps| ==> PcOf(Run(Init<T>(capacity), steps[..i]).threads, t) == Unmarking(role, current)
  }

  /** Whatever word a thread in UnmarkSlot holds was the value of that word when it last read it, in the same call. */
  lemma {:induction false} HoldsLastLoad<T>(capacity: nat, steps: seq<(nat, Action<T>)>, t: nat, role: Role<T>, current: bv64)
    returns (j: nat)
    requires capacity <= MAX_IDS && WellSized(Init<T>(capacity))
    requires PcOf(Run(Init<T>(capacity), steps).threads, t) == Unmarking(role, current)
    ensures j < |steps| && LastLoad(capacity, steps, t, role, current, j)
  {
    hide Step, Init;
    NobodyThere<T>(capacity, t);
    var n := |steps| - 1;
    var before := Run(Init<T>(capacity), steps[..n]);
    assert steps[..|steps|] == steps;
    StepMoves(before, steps[n].0, steps[n].1);
    if steps[n].0 == t && Step(before, t, steps[n].1) != before {
      j := n;
    } else {
      j := HoldsLastLoad(capacity, steps[..n], t, role, current);
      assert steps[..n][..j] == steps[..j];
      assert forall i :: j < i <= n ==> steps[..n][..i] == steps[..i];
    }
  }

  lemma NobodyThere<T>(capacity: nat, t: nat)
    requires capacity <= MAX_IDS
    ensures PcOf(Init<T>(capacity).threads, t) == Idle
  {
  }

  /** The last step ended a call of thread t without adding to either log. */
  ghost predicate EndsEmptyHanded<T>(capacity: nat, steps: seq<(nat, Action<T>)>, t: nat)
    requires capacity <= MAX_IDS && steps != []
  {
    InitCapacity<T>(capacity);
    var before, after := Run(Init<T>(capacity), steps[..|steps| - 1]), Run(Init<T>(capacity), steps);
    && !PcOf(before.threads, t).Idle? && PcOf(after.threads, t).Idle?
    && after.sent == before.sent && after.received == before.received
  }

  /**
   * A call that comes back without having sent or received anything saw its
   * word empty: a Send the free word, a Recv the occupied one, when it last read
   * it, and from then on it was in UnmarkSlot.
   */
  lemma EmptyHandedSawEmpty<T>(capacity: nat, steps: seq<(nat, Action<T>)>, t: nat) returns (role: Role<T>, j: nat)
    requires capacity <= MAX_IDS && WellSized(Init<T>(capacity)) && steps != [] && EndsEmptyHanded(capacity, steps, t)
    ensures j < |steps| - 1 && steps[j].0 == t
    ensures Ids(WordOf(Run(Init<T>(capacity), steps[..j]), role)) == []
    ensures forall i :: j < i < |steps| ==>
              var pc := PcOf(Run(Init<T>(capacity), steps[..i]).threads, t); pc.Unmarking? && pc.role == role
  {
    hide Step, GapFree, Ids, Init;
    var n := |steps| - 1;
    var before := Run(Init<T>(capacity), steps[..n]);
    StepMoves(before, steps[n].0, steps[n].1);
    var pc := PcOf(before.threads, t);
    role := pc.role;
    j := HoldsLastLoad(capacity, steps[..n], t, role, pc.current);
    RunKeepsInv(capacity, steps[..j]);
    assert steps[..n][..j] == steps[..j];
    assert forall i :: j < i <= n ==> steps[..n][..i] == steps[..i];
    WordsGapFree(Run(Init<T>(capacity), steps[..j]), role);
    FrontIsThere(pc.current);
  }

  lemma WordsGapFree<T>(s: System<T>, role: Role<T>)
    requires Inv(s)
    ensures GapFree(WordOf(s, role))
  {
  }

  // ----- a call that runs alone

  lemma OneMore<T>(s: System<T>, steps: seq<(nat, Action<T>)>, t: nat, a: Action<T>)
    requires WellSized(s)
    ensures Run(s, steps + [(t, a)]) == Step(Run(s, steps), t, a)
  {
    hide Step;
    assert (steps + [(t, a)])[..|steps|] == steps;
  }

  /** The start of a call and five steps that nothing interferes with. */
  function Alone<T>(t: nat, start: Action<T>): seq<(nat, Action<T>)> {
    [(t, start)] + [(t, Go)] + [(t, Go)] + [(t, Go)] + [(t, Go)] + [(t, Go)]
  }

  /** What the steps of such a run lead through: the start, the slot taken, the copy made, the end. */
  lemma AloneSteps<T>(s: System<T>, t: nat, a: Action<T>) returns (s1: System<T>, s2: System<T>, s5: System<T>, s6: System<T>)
    requires Inv(s)
    ensures WellSized(s) && WellSized(s1) && WellSized(s2) && WellSized(s5)
    ensures Inv(s1) && Inv(s2) && Inv(s5) && s1 == Step(s, t, a) && s2 == Step(s1, t, Go)
    ensures WellSized(Step(s2, t, Go)) && WellSized(Step(Step(s2, t, Go), t, Go))
    ensures s5 == Step(Step(Step(s2, t, Go), t, Go), t, Go) && s6 == Step(s5, t, Go) && Run(s, Alone(t, a)) == s6
  {
    hide Step, GapFree, Places, ThreadsOk, OccupiedWhole;
    s1 := Step(s, t, a);
    StepKeepsInv(s, t, a);
    s2 := Step(s1, t, Go);
    StepKeepsInv(s1, t, Go);
    var s3 := Step(s2, t, Go);
    StepKeepsInv(s2, t, Go);
    var s4 := Step(s3, t, Go);
    StepKeepsInv(s3, t, Go);
    s5 := Step(s4, t, Go);
    StepKeepsInv(s4, t, Go);
    s6 := Step(s5, t, Go);
    assert Run(s, []) == s;
    assert [] + [(t, a)] == [(t, a)];
    var p := [(t, a)];
    OneMore(s, [], t, a);
    OneMore(s, p, t, Go);
    OneMore(s, p + [(t, Go)], t, Go);
    OneMore(s, p + [(t, Go)] + [(t, Go)], t, Go);
    OneMore(s, p + [(t, Go)] + [(t, Go)] + [(t, Go)], t, Go);
    OneMore(s, p + [(t, Go)] + [(t, Go)] + [(t, Go)] + [(t, Go)], t, Go);
  }

  /** Nothing to take: the call comes back at once, and everything is as before. */
  lemma NothingThere<T>(s: System<T>, t: nat, role: Role<T>)
    requires Inv(s) && PcOf(s.threads, t) == Unmarking(role, WordOf(s, role)) && Ids(WordOf(s, role)) == []
    ensures Step(s, t, Go) == s.(threads := s.threads[t := Idle])
    ensures WellSized(Step(s, t, Go)) && Step(Step(s, t, Go), t, Go) == Step(s, t, Go)
  {
    hide GapFree, Ids, FrontId, Places, ThreadsOk, OccupiedWhole, MarkStep, CopyStep;
    WordsGapFree(s, role);
    FrontIsThere(WordOf(s, role));
  }

  lemma Starts<T>(s: System<T>, t: nat, a: Action<T>)
    requires Inv(s) && PcOf(s.threads, t).Idle?
    ensures a.StartSend? ==> Step(s, t, a) == s.(threads := s.threads[t := Unmarking(Sender(a.value), s.free)])
    ensures a.StartRecv? ==> Step(s, t, a) == s.(threads := s.threads[t := Unmarking(Receiver, s.occupied)])
  {
  }

  lemma Overwrites<T>(threads: map<nat, Pc<T>>, t: nat, pc: Pc<T>, pc': Pc<T>)
    ensures threads[t := pc][t := pc'] == threads[t := pc'] && PcOf(threads[t := pc], t) == pc
  {
  }

  /** With a free slot and no interference a Send stores its value in the front free slot and queues it last. */
  lemma SendAlone<T>(s: System<T>, t: nat, value: T)
    requires Inv(s) && PcOf(s.threads, t).Idle?
    ensures var s', fq := Run(s, Alone(t, StartSend(value))), Ids(s.free);
            if fq == [] then s' == s.(threads := s.threads[t := Idle])
            else
              && 1 <= fq[0] <= |s.data|
              && s' == s.(free := s'.free, occupied := s'.occupied, data := s.data[fq[0] - 1 := Whole(value)],
                          threads := s.threads[t := Idle], sent := s.sent + [value])
              && Ids(s'.free) == fq[1..] && Ids(s'.occupied) == Ids(s.occupied) + [fq[0]]
  {
    hide Inv, Ids, Run, Step;
    var s1, s2, s5, s6 := AloneSteps(s, t, StartSend(value));
    if Ids(s.free) == [] {
      Starts(s, t, StartSend(value));
      Overwrites(s.threads, t, Unmarking(Sender(value), s.free), Idle);
      NothingThere(s1, t, Sender(value));
    } else {
      SendTakes(s, t, value, s1, s2);
      SendGives(s2, t, value, Ids(s.free)[0], s5, s6);
      Overwrites(s.threads, t, Writing(value, Ids(s.free)[0]), Idle);
    }
  }

  lemma SendGives<T>(s: System<T>, t: nat, value: T, id: nat, s5: System<T>, s6: System<T>)
    requires Inv(s) && Inv(s5) && PcOf(s.threads, t) == Writing(value, id)
    requires WellSized(Step(s, t, Go)) && WellSized(Step(Step(s, t, Go), t, Go))
    requires s5 == Step(Step(Step(s, t, Go), t, Go), t, Go) && s6 == Step(s5, t, Go)
    ensures 1 <= id <= |s.data|
    ensures s6 == s.(occupied := s6.occupied, data := s.data[id - 1 := Whole(value)], threads := s.threads[t := Idle],
                     sent := s.sent + [value])
    ensures Ids(s6.occupied) == Ids(s.occupied) + [id]
  {
    hide Inv, Ids, Step;
    CopyIn(s, t, value, id);
    GoAppends(s5, t, Sent(value), id, s.occupied);
    Overwrites(s.threads, t, Marking(Sent(value), id, s.occupied), Idle);
  }

  lemma SendTakes<T>(s: System<T>, t: nat, value: T, s1: System<T>, s2: System<T>)
    requires Inv(s) && PcOf(s.threads, t).Idle? && Ids(s.free) != []
    requires s1 == Step(s, t, StartSend(value)) && Inv(s1) && s2 == Step(s1, t, Go)
    ensures s2 == s.(free := s2.free, threads := s.threads[t := Writing(value, Ids(s.free)[0])])
    ensures Ids(s2.free) == Ids(s.free)[1..]
  {
    hide Inv, Ids, Step;
    Starts(s, t, StartSend(value));
    GoTakesFront(s1, t, Sender(value), s.free);
    Overwrites(s.threads, t, Unmarking(Sender(value), s.free), Writing(value, Ids(s.free)[0]));
  }

  lemma CopyIn<T>(s: System<T>, t: nat, value: T, id: nat)
    requires Inv(s) && PcOf(s.threads, t) == Writing(value, id)
    ensures 1 <= id <= |s.data| && WellSized(Step(s, t, Go)) && WellSized(Step(Step(s, t, Go), t, Go))
    ensures Step(Step(Step(s, t, Go), t, Go), t, Go) ==
            s.(data := s.data[id - 1 := Whole(value)], threads := s.threads[t := Marking(Sent(value), id, s.occupied)])
  {
    hide GapFree, Ids, Places, OccupiedWhole, UnmarkStep, MarkStep, StaleOk;
    assert ThreadOk(s.threads[t], s.capacity, s.data);
    var s1 := s.(data := s.data[id - 1 := Torn], threads := s.threads[t := HalfWritten(value, id)]);
    assert Step(s, t, Go) == s1;
    var s2 := s.(data := s.data[id - 1 := Whole(value)], threads := s.threads[t := Loading(Sent(value), id)]);
    assert s1.data[id - 1 := Whole(value)] == s2.data && s1.threads[t := Loading(Sent(value), id)] == s2.threads;
    assert Step(s1, t, Go) == s2;
    assert s2.threads[t := Marking(Sent(value), id, s.occupied)] == s.threads[t := Marking(Sent(value), id, s.occupied)];
  }

  /** With a queued element and no interference a Recv returns the front one whole and frees its slot. */
  lemma RecvAlone<T>(s: System<T>, t: nat)
    requires Inv(s) && PcOf(s.threads, t).Idle?
    ensures var s', oq := Run(s, Alone(t, StartRecv)), Ids(s.occupied);
            if oq == [] then s' == s.(threads := s.threads[t := Idle])
            else
              && 1 <= oq[0] <= |s.data| && s.data[oq[0] - 1].Whole?
              && s' == s.(free := s'.free, occupied := s'.occupied, threads := s.threads[t := Idle],
                          received := s.received + [s.data[oq[0] - 1]])
              && Ids(s'.occupied) == oq[1..] && Ids(s'.free) == Ids(s.free) + [oq[0]]
  {
    hide Inv, Ids, Run, Step;
    var s1, s2, s5, s6 := AloneSteps<T>(s, t, StartRecv);
    if Ids(s.occupied) == [] {
      Starts(s, t, StartRecv);
      Overwrites(s.threads, t, Unmarking(Receiver, s.occupied), Idle);
      NothingThere(s1, t, Receiver);
    } else {
      RecvTakes(s, t, s1, s2);
      RecvGives(s2, t, Ids(s.occupied)[0], s5, s6);
      Overwrites(s.threads, t, Reading(Ids(s.occupied)[0]), Idle);
    }
  }

  lemma RecvGives<T>(s: System<T>, t: nat, id: nat, s5: System<T>, s6: System<T>)
    requires Inv(s) && Inv(s5) && PcOf(s.threads, t) == Reading(id)
    requires WellSized(Step(s, t, Go)) && WellSized(Step(Step(s, t, Go), t, Go))
    requires s5 == Step(Step(Step(s, t, Go), t, Go), t, Go) && s6 == Step(s5, t, Go)
    ensures 1 <= id <= |s.data| && s.data[id - 1].Whole?
    ensures s6 == s.(free := s6.free, threads := s.threads[t := Idle], received := s.received + [s.data[id - 1]])
    ensures Ids(s6.free) == Ids(s.free) + [id]
  {
    hide Inv, Ids, Step;
    CopyOut(s, t, id);
    var cell := s.data[id - 1];
    GoAppends(s5, t, Received(cell), id, s.free);
    Overwrites(s.threads, t, Marking(Received(cell), id, s.free), Idle);
  }

  lemma RecvTakes<T>(s: System<T>, t: nat, s1: System<T>, s2: System<T>)
    requires Inv(s) && PcOf(s.threads, t).Idle? && Ids(s.occupied) != []
    requires s1 == Step(s, t, StartRecv) && Inv(s1) && s2 == Step(s1, t, Go)
    ensures s2 == s.(occupied := s2.occupied, threads := s.threads[t := Reading(Ids(s.occupied)[0])])
    ensures Ids(s2.occupied) == Ids(s.occupied)[1..]
  {
    hide Inv, Ids, Step;
    Starts(s, t, StartRecv);
    GoTakesFront(s1, t, Receiver, s.occupied);
    Overwrites(s.threads, t, Unmarking(Receiver, s.occupied), Reading(Ids(s.occupied)[0]));
  }

  lemma CopyOut<T>(s: System<T>, t: nat, id: nat)
    requires Inv(s) && PcOf(s.threads, t) == Reading(id)
    ensures 1 <= id <= |s.data| && WellSized(Step(s, t, Go)) && WellSized(Step(Step(s, t, Go), t, Go))
    ensures s.data[id - 1].Whole?
    ensures Step(Step(Step(s, t, Go), t, Go), t, Go) ==
            s.(threads := s.threads[t := Marking(Received(s.data[id - 1]), id, s.free)])
  {
    hide GapFree, Ids, Places, OccupiedWhole, UnmarkStep, MarkStep, StaleOk;
    assert ThreadOk(s.threads[t], s.capacity, s.data);
    var cell := s.data[id - 1];
    var s1, s2 := s.(threads := s.threads[t := HalfRead(id, cell)]), s.(threads := s.threads[t := Loading(Received(cell), id)]);
    Overwrites(s.threads, t, HalfRead(id, cell), Loading(Received(cell), id));
    assert Step(s, t, Go) == s1;
    assert Step(s1, t, Go) == s2;
    Overwrites(s.threads, t, Loading(Received(cell), id), Marking(Received(cell), id, s.free));
  }
}
