/** Iteration over a list that changes underneath: what an iterator still has to visit. */
module SafeIteration {
  import opened Basics

  /** The part of s that starts at e. */
  function SuffixFrom<T(==)>(s: seq<T>, e: T): seq<T> {
    if s == [] then [] else if s[0] == e then s else SuffixFrom(s[1..], e)
  }

  lemma {:induction false} SuffixAt<T>(s: seq<T>, i: nat)
    requires Distinct(s) && i < |s|
    ensures SuffixFrom(s, s[i]) == s[i..]
  {
    if i > 0 {
      assert s[1..][i - 1] == s[i];
      SuffixAt(s[1..], i - 1);
      assert s[1..][i - 1..] == s[i..];
    }
  }

  lemma {:induction false} SuffixMember<T>(s: seq<T>, e: T, x: T)
    requires x in SuffixFrom(s, e)
    ensures x in s
  {
    if s != [] && s[0] != e {
      SuffixMember(s[1..], e, x);
    }
  }

  lemma {:induction false} SuffixAbsent<T>(s: seq<T>, e: T)
    requires e !in s
    ensures SuffixFrom(s, e) == []
  {
    if s != [] {
      SuffixAbsent(s[1..], e);
    }
  }

  lemma {:induction false} SuffixAppend<T>(s: seq<T>, e: T, x: T)
    requires e in s
    ensures SuffixFrom(s + [x], e) == SuffixFrom(s, e) + [x]
  {
    if s[0] != e {
      assert (s + [x])[1..] == s[1..] + [x];
      SuffixAppend(s[1..], e, x);
    }
  }

  lemma {:induction false} SuffixOfLast<T>(s: seq<T>, x: T)
    requires x !in s
    ensures SuffixFrom(s + [x], x) == [x]
  {
    if s != [] {
      assert (s + [x])[1..] == s[1..] + [x];
      SuffixOfLast(s[1..], x);
    }
  }

  lemma SuffixPrepend<T>(s: seq<T>, e: T, x: T)
    requires x != e
    ensures SuffixFrom([x] + s, e) == SuffixFrom(s, e)
  {
    assert ([x] + s)[1..] == s;
  }

  /** Deleting another element deletes it from the suffix too. */
  lemma {:induction false} SuffixWithout<T>(s: seq<T>, e: T, x: T)
    requires Distinct(s) && e != x && e in s
    ensures SuffixFrom(Without(s, x), e) == Without(SuffixFrom(s, e), x)
  {
    if s[0] == x {
      var k :| 0 < k < |s| && s[k] == e;
      SuffixAt(s, k);
      WithoutAbsent(s[k..], x);
    } else if s[0] != e {
      SuffixWithout(s[1..], e, x);
      SuffixPrepend(Without(s[1..], x), e, s[0]);
    }
  }

  /** Deleting the element the suffix starts at leaves the suffix of its successor. */
  lemma SuffixOfSuccessor<T>(s: seq<T>, k: nat)
    requires Distinct(s) && k + 1 < |s|
    ensures SuffixFrom(Without(s, s[k]), s[k + 1]) == Without(SuffixFrom(s, s[k]), s[k])
  {
    hide Distinct, SuffixFrom;
    SuffixAt(s, k);
    WithoutAt(s, k);
    DistinctWithout(s, k);
    var t := Without(s, s[k]);
    assert t[k] == s[k + 1] && t[k..] == s[k + 1..];
    SuffixAt(t, k);
  }

  // ----- runs

  /** Everything the list offers while an iterator is alive, and the iterator's own step. */
  datatype Op<T> = PushFront(e: T) | PushBack(e: T) | Delete(e: T) | Advance

  /** The list, what one iterator has still to visit, and what it has yielded. */
  datatype View<T> = View(elems: seq<T>, pending: seq<T>, yielded: seq<T>)

  predicate Allowed<T(==)>(v: View<T>, op: Op<T>) {
    match op
    case PushFront(e) => e !in v.elems
    case PushBack(e) => e !in v.elems
    case Delete(e) => e in v.elems
    case Advance => true
  }

  function After<T(==)>(v: View<T>, op: Op<T>): View<T> {
    match op
    case PushFront(e) => View([e] + v.elems, v.pending, v.yielded)
    case PushBack(e) => View(v.elems + [e], v.pending + [e], v.yielded)
    case Delete(e) => View(Without(v.elems, e), Without(v.pending, e), v.yielded)
    case Advance => if v.pending == [] then v else View(v.elems, v.pending[1..], v.yielded + [v.pending[0]])
  }

  function AfterRun<T(==)>(v: View<T>, run: seq<Op<T>>): View<T>
    decreases run
  {
    if run == [] then v else AfterRun(After(v, run[0]), run[1..])
  }

  predicate AllowedRun<T(==)>(v: View<T>, run: seq<Op<T>>)
    decreases run
  {
    run == [] || (Allowed(v, run[0]) && AllowedRun(After(v, run[0]), run[1..]))
  }

  /** The pending elements are the end of the list. */
  ghost predicate Suffix<T>(v: View<T>) {
    Distinct(v.elems) && |v.pending| <= |v.elems| && v.pending == v.elems[|v.elems| - |v.pending|..]
  }

  lemma DeleteKeepsSuffix<T>(s: seq<T>, d: nat, k: nat)
    requires Distinct(s) && d <= |s| && k < |s|
    ensures var t, p := Without(s, s[k]), Without(s[d..], s[k]);
            Distinct(t) && |p| <= |t| && p == t[|t| - |p|..]
  {
    hide Without;
    WithoutAt(s, k);
    DistinctWithout(s, k);
    if k < d {
      WithoutAbsent(s[d..], s[k]);
    } else {
      assert s[d..][k - d] == s[k];
      WithoutAt(s[d..], k - d);
      assert s[d..][k - d + 1..] == s[k + 1..];
      assert s[d..][..k - d] == s[d..k];
    }
  }

  lemma StepKeepsSuffix<T>(v: View<T>, op: Op<T>)
    requires Suffix(v) && Allowed(v, op)
    ensures Suffix(After(v, op))
  {
    match op
    case Delete(e) =>
      var k :| 0 <= k < |v.elems| && v.elems[k] == e;
      DeleteKeepsSuffix(v.elems, |v.elems| - |v.pending|, k);
    case PushFront(e) =>
    case PushBack(e) =>
    case Advance =>
  }

  /** A step of the iterator yields the first pending element, which is in the list, or nothing if none is pending. */
  ghost predicate YieldsOneListed<T>(before: View<T>, now: View<T>) {
    if before.pending == [] then now == before
    else now == View(before.elems, before.pending[1..], before.yielded + [before.pending[0]]) && before.pending[0] in before.elems
  }

  /** An iterator only ever yields elements that are in the list at that moment. */
  lemma {:induction false} YieldsListed<T>(v: View<T>, run: seq<Op<T>>)
    requires Suffix(v) && AllowedRun(v, run)
    ensures Suffix(AfterRun(v, run))
    ensures forall i :: 0 <= i < |run| && run[i].Advance? ==>
              YieldsOneListed(AfterRun(v, run[..i]), AfterRun(v, run[..i + 1]))
    decreases run
  {
    if run != [] {
      StepKeepsSuffix(v, run[0]);
      var next := After(v, run[0]);
      YieldsListed(next, run[1..]);
      forall i | 0 <= i < |run| && run[i].Advance?
        ensures YieldsOneListed(AfterRun(v, run[..i]), AfterRun(v, run[..i + 1]))
      {
        if i > 0 {
          assert run[1..][i - 1] == run[i];
          assert run[..i][1..] == run[1..][..i - 1];
          assert run[..i + 1][1..] == run[1..][..i];
        } else {
          assert run[..1] == [run[0]] && run[..1][1..] == [] && run[..0] == [];
        }
      }
    }
  }

  // ----- every element that stays is visited once, in order

  function Deleted<T(==)>(run: seq<Op<T>>): set<T> {
    if run == [] then {} else (if run[0].Delete? then {run[0].e} else {}) + Deleted(run[1..])
  }

  function Appended<T(==)>(run: seq<Op<T>>): seq<T> {
    if run == [] then [] else (if run[0].PushBack? then [run[0].e] else []) + Appended(run[1..])
  }

  function Keep<T(==)>(s: seq<T>, gone: set<T>): seq<T> {
    if s == [] then [] else (if s[0] in gone then [] else [s[0]]) + Keep(s[1..], gone)
  }

  lemma {:induction false} KeepConcat<T>(a: seq<T>, b: seq<T>, gone: set<T>)
    ensures Keep(a + b, gone) == Keep(a, gone) + Keep(b, gone)
  {
    if a == [] {
      assert a + b == b;
    } else {
      assert (a + b)[1..] == a[1..] + b;
      KeepConcat(a[1..], b, gone);
    }
  }

  lemma {:induction false} KeepWithout<T>(s: seq<T>, e: T, gone: set<T>)
    requires e in gone
    ensures Keep(Without(s, e), gone) == Keep(s, gone)
  {
    if s != [] && s[0] != e {
      KeepWithout(s[1..], e, gone);
      assert ([s[0]] + Without(s[1..], e))[1..] == Without(s[1..], e);
    }
  }

  lemma StepConserves<T>(v: View<T>, op: Op<T>, gone: set<T>)
    requires op.Delete? ==> op.e in gone
    ensures var w := After(v, op);
            Keep(w.yielded, gone) + Keep(w.pending, gone)
            == Keep(v.yielded, gone) + Keep(v.pending, gone) + (if op.PushBack? then Keep([op.e], gone) else [])
  {
    match op
    case PushFront(e) =>
    case PushBack(e) => KeepConcat(v.pending, [e], gone);
    case Delete(e) => KeepWithout(v.pending, e, gone);
    case Advance =>
      if v.pending != [] {
        var p := v.pending;
        KeepConcat(v.yielded, [p[0]], gone);
        KeepConcat([p[0]], p[1..], gone);
        assert [p[0]] + p[1..] == p;
      }
  }

  lemma {:induction false} RunConserves<T>(v: View<T>, run: seq<Op<T>>, gone: set<T>)
    requires Deleted(run) <= gone
    ensures var w := AfterRun(v, run);
            Keep(w.yielded, gone) + Keep(w.pending, gone)
            == Keep(v.yielded, gone) + Keep(v.pending, gone) + Keep(Appended(run), gone)
    decreases run
  {
    if run != [] {
      StepConserves(v, run[0], gone);
      RunConserves(After(v, run[0]), run[1..], gone);
      KeepConcat(if run[0].PushBack? then [run[0].e] else [], Appended(run[1..]), gone);
    }
  }

  /**
   * Leaving out whatever was deleted at some point, the elements yielded and
   * the elements still pending are, in order, those that were ahead of the
   * iterator followed by those appended during the run.
   */
  lemma EachVisitedOnceInOrder<T>(elems: seq<T>, pending: seq<T>, run: seq<Op<T>>)
    ensures var v, gone := View(elems, pending, []), Deleted(run);
            var w := AfterRun(v, run);
            Keep(w.yielded + w.pending, gone) == Keep(pending + Appended(run), gone)
  {
    var v, gone := View(elems, pending, []), Deleted(run);
    var w := AfterRun(v, run);
    RunConserves(v, run, gone);
    KeepConcat(w.yielded, w.pending, gone);
    KeepConcat(pending, Appended(run), gone);
    assert Keep<T>([], gone) == [];
  }

  // ----- composing runs

  lemma {:induction false} AfterRunAppend<T>(v: View<T>, a: seq<Op<T>>, b: seq<Op<T>>)
    ensures AfterRun(v, a + b) == AfterRun(AfterRun(v, a), b)
    ensures AllowedRun(v, a + b) <==> AllowedRun(v, a) && AllowedRun(AfterRun(v, a), b)
    decreases a
  {
    hide After, Allowed;
    if a == [] {
      assert a + b == b;
    } else {
      assert (a + b)[0] == a[0] && (a + b)[1..] == a[1..] + b;
      AfterRunAppend(After(v, a[0]), a[1..], b);
    }
  }

  /** What was yielded before a run does not affect it. */
  lemma {:induction false} YieldedBefore<T>(v: View<T>, before: seq<T>, run: seq<Op<T>>)
    ensures var w := AfterRun(v, run);
            AfterRun(View(v.elems, v.pending, before + v.yielded), run) == View(w.elems, w.pending, before + w.yielded)
    ensures AllowedRun(View(v.elems, v.pending, before + v.yielded), run) <==> AllowedRun(v, run)
    decreases run
  {
    if run != [] {
      var x, y := After(v, run[0]), After(View(v.elems, v.pending, before + v.yielded), run[0]);
      assert y == View(x.elems, x.pending, before + x.yielded);
      YieldedBefore(x, before, run[1..]);
    }
  }

  /** A run observed from scratch continues one that has already yielded something. */
  lemma RunsCompose<T>(v: View<T>, run: seq<Op<T>>, now: View<T>, yielded: seq<T>, more: seq<Op<T>>)
    requires AllowedRun(v, run) && AfterRun(v, run) == View(now.elems, now.pending, yielded) && now.yielded == []
    requires AllowedRun(now, more)
    ensures var w := AfterRun(now, more);
            AllowedRun(v, run + more) && AfterRun(v, run + more) == View(w.elems, w.pending, yielded + w.yielded)
  {
    hide AfterRun, AllowedRun;
    AfterRunAppend(v, run, more);
    YieldedBefore(now, yielded, more);
    assert yielded + [] == yielded;
  }
}
