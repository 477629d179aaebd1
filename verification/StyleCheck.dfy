/**
 * The include-order check of config/check_spidermonkey_style.py over a whole
 * block, and exactly when a repaired block passes it.
 */
module StyleCheck {
  import opened Wrappers
  import opened StyleLines
  import opened StyleTrees
  import opened StyleSort

  /** What precedes an include is compared with it only if it is an include itself. */
  predicate Follows(c: Context, prev: Option<Snippet>, s: Snippet)
    requires s.Include?
  {
    prev.Some? && prev.value.Include? ==> OrderAccepted(c, prev.value, s)
  }

  /** The traversal of a block: code is skipped, so includes on both sides of it are compared; a nested block
      is checked by itself and separates what is around it. prev is the last kid that was not skipped. */
  predicate Passes(c: Context, kids: seq<Snippet>, prev: Option<Snippet>)
    decreases kids
  {
    if kids == [] then true
    else if kids[0].Code? then Passes(c, kids[1..], prev)
    else
      (if kids[0].Include? then Follows(c, prev, kids[0]) else Passes(c, kids[0].kids, None))
      && Passes(c, kids[1..], Some(kids[0]))
  }

  /** No include or block stands between kids i and j. */
  ghost predicate OnlyCodeBetween(kids: seq<Snippet>, i: int, j: int) {
    forall k :: i < k < j && 0 <= k < |kids| ==> kids[k].Code?
  }

  ghost predicate Neighbours(c: Context, kids: seq<Snippet>, i: int, j: int) {
    0 <= i < j < |kids| && kids[i].Include? && kids[j].Include? && OnlyCodeBetween(kids, i, j)
  }

  ghost predicate FirstFits(c: Context, kids: seq<Snippet>, prev: Option<Snippet>) {
    forall j :: 0 <= j < |kids| && kids[j].Include? && OnlyCodeBetween(kids, -1, j) ==> Follows(c, prev, kids[j])
  }

  ghost predicate NeighboursFit(c: Context, kids: seq<Snippet>) {
    forall i, j :: Neighbours(c, kids, i, j) ==> OrderAccepted(c, kids[i], kids[j])
  }

  ghost predicate BlocksPass(c: Context, kids: seq<Snippet>) {
    forall i :: 0 <= i < |kids| && kids[i].Block? ==> Passes(c, kids[i].kids, None)
  }

  lemma BetweenTail(kids: seq<Snippet>, i: int, j: int)
    requires kids != [] && -1 <= i
    ensures OnlyCodeBetween(kids[1..], i, j) <==> OnlyCodeBetween(kids, i + 1, j + 1)
    ensures 0 <= j ==> (OnlyCodeBetween(kids, -1, j + 1) <==> kids[0].Code? && OnlyCodeBetween(kids, 0, j + 1))
  {
    var rest := kids[1..];
    assert forall k :: 0 <= k < |rest| ==> rest[k] == kids[k + 1];
    if OnlyCodeBetween(rest, i, j) {
      forall k | i + 1 < k < j + 1 && 0 <= k < |kids|
        ensures kids[k].Code?
      {
        assert rest[k - 1] == kids[k];
      }
    }
  }

  lemma FirstStep(c: Context, kids: seq<Snippet>, prev: Option<Snippet>)
    requires kids != []
    ensures FirstFits(c, kids, prev) <==>
            if kids[0].Code? then FirstFits(c, kids[1..], prev) else kids[0].Include? ==> Follows(c, prev, kids[0])
  {
    hide Follows, OnlyCodeBetween;
    BetweenNothing(kids);
    forall j | 0 <= j < |kids| - 1
      ensures OnlyCodeBetween(kids[1..], -1, j) && kids[0].Code? <==> OnlyCodeBetween(kids, -1, j + 1)
      ensures kids[1..][j] == kids[j + 1]
    {
      BetweenTail(kids, -1, j);
    }
    if FirstFits(c, kids, prev) && kids[0].Code? {
      forall j | 0 <= j < |kids| - 1 && kids[1..][j].Include? && OnlyCodeBetween(kids[1..], -1, j)
        ensures Follows(c, prev, kids[1..][j])
      {
        assert OnlyCodeBetween(kids, -1, j + 1);
      }
    }
    if kids[0].Code? && FirstFits(c, kids[1..], prev) {
      forall j | 0 <= j < |kids| && kids[j].Include? && OnlyCodeBetween(kids, -1, j)
        ensures Follows(c, prev, kids[j])
      {
        assert OnlyCodeBetween(kids[1..], -1, j - 1);
      }
    }
    if !kids[0].Code? {
      forall j | 0 < j < |kids|
        ensures !OnlyCodeBetween(kids, -1, j)
      {
        BetweenTail(kids, -1, j - 1);
      }
    }
  }

  lemma BetweenNothing(kids: seq<Snippet>)
    ensures OnlyCodeBetween(kids, -1, 0)
  {
  }

  lemma NeighboursStep(c: Context, kids: seq<Snippet>)
    requires kids != []
    ensures NeighboursFit(c, kids) <==>
            NeighboursFit(c, kids[1..]) && (kids[0].Include? ==> FirstFits(c, kids[1..], Some(kids[0])))
  {
    hide OrderAccepted, OnlyCodeBetween;
    var rest := kids[1..];
    assert forall k :: 0 <= k < |rest| ==> rest[k] == kids[k + 1];
    forall i, j | -1 <= i < j < |rest|
      ensures OnlyCodeBetween(rest, i, j) <==> OnlyCodeBetween(kids, i + 1, j + 1)
    {
      BetweenTail(kids, i, j);
    }
    if NeighboursFit(c, kids) {
      forall i, j | Neighbours(c, rest, i, j)
        ensures OrderAccepted(c, rest[i], rest[j])
      {
        assert Neighbours(c, kids, i + 1, j + 1);
      }
      if kids[0].Include? {
        forall j | 0 <= j < |rest| && rest[j].Include? && OnlyCodeBetween(rest, -1, j)
          ensures Follows(c, Some(kids[0]), rest[j])
        {
          assert Neighbours(c, kids, 0, j + 1);
        }
      }
    }
    if NeighboursFit(c, rest) && (kids[0].Include? ==> FirstFits(c, rest, Some(kids[0]))) {
      forall i, j | Neighbours(c, kids, i, j)
        ensures OrderAccepted(c, kids[i], kids[j])
      {
        assert OnlyCodeBetween(rest, i - 1, j - 1);
        if i > 0 {
          assert Neighbours(c, rest, i - 1, j - 1);
        } else {
          assert Follows(c, Some(kids[0]), rest[j - 1]);
        }
      }
    }
  }

  lemma BlocksStep(c: Context, kids: seq<Snippet>)
    requires kids != []
    ensures BlocksPass(c, kids) <==> BlocksPass(c, kids[1..]) && (kids[0].Block? ==> Passes(c, kids[0].kids, None))
  {
    hide Passes;
    var rest := kids[1..];
    assert forall k :: 0 <= k < |rest| ==> rest[k] == kids[k + 1];
    if BlocksPass(c, rest) && (kids[0].Block? ==> Passes(c, kids[0].kids, None)) {
      forall i | 0 <= i < |kids| && kids[i].Block?
        ensures Passes(c, kids[i].kids, None)
      {
        assert i > 0 ==> rest[i - 1] == kids[i];
      }
    }
  }

  /** The kids pass exactly when every two includes with nothing but code between them are in order, the first one
      fits what precedes the kids, and every nested block passes by itself. */
  lemma {:induction false} PassesIff(c: Context, kids: seq<Snippet>, prev: Option<Snippet>)
    ensures Passes(c, kids, prev) <==> FirstFits(c, kids, prev) && NeighboursFit(c, kids) && BlocksPass(c, kids)
    decreases |kids|
  {
    hide FirstFits, NeighboursFit, BlocksPass;
    if kids == [] {
      NothingToPass(c, prev);
    } else {
      var first := kids[0];
      FirstStep(c, kids, prev);
      NeighboursStep(c, kids);
      BlocksStep(c, kids);
      PassesIff(c, kids[1..], if first.Code? then prev else Some(first));
      if first.Block? {
        BlocksSeparate(c, kids[1..], first);
      }
    }
  }

  lemma NothingToPass(c: Context, prev: Option<Snippet>)
    ensures FirstFits(c, [], prev) && NeighboursFit(c, []) && BlocksPass(c, [])
  {
  }

  lemma BlocksSeparate(c: Context, kids: seq<Snippet>, block: Snippet)
    requires block.Block?
    ensures FirstFits(c, kids, Some(block))
  {
  }

  method CheckOrder(c: Context, block: Snippet) returns (ok: bool)
    requires block.Block?
    ensures ok == Passes(c, block.kids, None)
    decreases block
  {
    ok := true;
    var prev, i := None, 0;
    assert block.kids[0..] == block.kids;
    while i < |block.kids|
      invariant 0 <= i <= |block.kids|
      invariant Passes(c, block.kids, None) == (ok && Passes(c, block.kids[i..], prev))
    {
      var kid := block.kids[i];
      assert block.kids[i..][0] == kid && block.kids[i..][1..] == block.kids[i + 1..];
      if !kid.Code? {
        var here := true;
        if kid.Include? {
          here := Follows(c, prev, kid);
        } else {
          here := CheckOrder(c, kid);
        }
        ok := ok && here;
        prev := Some(kid);
      }
      i := i + 1;
    }
  }

  // ----- the condition on the block before the repair

  predicate AllAccepted(c: Context, a: Includes, b: Includes) {
    forall i, j :: 0 <= i < |a| && 0 <= j < |b| ==> OrderAccepted(c, a[i], b[j])
  }

  /** The includes of a batch that the includes before it must fit: all of them, or the first one of a batch
      that is left alone. */
  function Lead(c: Context, includes: Includes): Includes {
    if includes != [] && Exempt(c, includes) then includes[..1] else includes
  }

  /** The includes that those after a batch must fit; a batch without any passes on what stood before it. */
  function Trail(c: Context, before: Includes, includes: Includes): Includes {
    if includes == [] then before
    else if Exempt(c, includes) then includes[|includes| - 1..]
    else includes
  }

  predicate BatchPasses(c: Context, before: Includes, includes: Includes) {
    AllAccepted(c, before, Lead(c, includes)) && (Exempt(c, includes) ==> PairsAccepted(c, includes))
  }

  /** Across code every include must fit every later one; batches left alone must be accepted as they stand. */
  predicate BatchesFit(c: Context, kids: seq<Snippet>, batch: seq<Snippet>, before: Includes)
    decreases kids
  {
    if kids == [] then BatchPasses(c, before, IncludesOf(batch))
    else if Batchable(kids[0]) then BatchesFit(c, kids[1..], batch + [kids[0]], before)
    else
      BatchPasses(c, before, IncludesOf(batch))
      && (kids[0].Block? ==> BatchesFit(c, kids[0].kids, [], []))
      && BatchesFit(c, kids[1..], [], if kids[0].Block? then [] else Trail(c, before, IncludesOf(batch)))
  }

  // ----- the order of keys

  /** The order of keys is total up to equal keys, so not coming before carries over. */
  lemma NotBeforeTransitive(c: Context, x: Snippet, y: Snippet, z: Snippet)
    requires x.Include? && y.Include? && z.Include?
    requires !Before(c, y, x) && !Before(c, z, y)
    ensures !Before(c, z, x)
  {
    hide Section, LessString;
    var a, b, d := Lower(x.inclname), Lower(y.inclname), Lower(z.inclname);
    if LessString(d, a) {
      LessTotal(a, b);
      LessTotal(b, d);
      if LessString(a, b) {
        LessTransitive(d, a, b);
      }
    }
  }

  lemma {:induction false} OrderedPairs(c: Context, s: Includes, i: nat, j: nat)
    requires InOrder(c, s) && i <= j < |s|
    ensures !Before(c, s[j], s[i])
    decreases j - i
  {
    KeysAreTotal(c, s[i], s[i]);
    if i < j {
      OrderedPairs(c, s, i + 1, j);
      NotBeforeTransitive(c, s[i], s[i + 1], s[j]);
    }
  }

  predicate Odd(s: Snippet)
    requires s.Include?
  {
    s.inclname in ODDLY_ORDERED
  }

  lemma AcceptedIsOrdered(c: Context, a: Snippet, b: Snippet)
    requires a.Include? && b.Include?
    ensures OrderAccepted(c, a, b) <==> Odd(a) || Odd(b) || !Before(c, b, a)
  {
    hide Section, LessString, Lower;
  }

  // ----- the edges of a batch

  /** One include stands for the edge of the batch before: alone, or as a greatest one among ordinary names. */
  predicate Stands(c: Context, prev: Option<Snippet>, edge: Includes) {
    if edge == [] then prev.None? || !prev.value.Include?
    else
      prev.Some? && prev.value in edge
      && (edge == [prev.value] || forall i :: 0 <= i < |edge| ==> !Odd(edge[i]) && !Before(c, prev.value, edge[i]))
  }

  lemma EdgeDecides(c: Context, prev: Option<Snippet>, edge: Includes, s: Snippet)
    requires s.Include? && Stands(c, prev, edge)
    ensures Follows(c, prev, s) <==> AllAccepted(c, edge, [s])
  {
    hide OrderAccepted, Before;
    if edge != [] {
      var k :| 0 <= k < |edge| && edge[k] == prev.value;
      AcceptedIsOrdered(c, prev.value, s);
      forall i | 0 <= i < |edge|
        ensures OrderAccepted(c, prev.value, s) ==> OrderAccepted(c, edge[i], s)
      {
        AcceptedIsOrdered(c, edge[i], s);
        if !Before(c, prev.value, edge[i]) && !Before(c, s, prev.value) {
          NotBeforeTransitive(c, edge[i], prev.value, s);
        }
      }
      assert [s][0] == s;
    }
  }

  lemma ExemptOdd(c: Context, includes: Includes)
    requires !Exempt(c, includes)
    ensures forall i :: 0 <= i < |includes| ==> !Odd(includes[i])
  {
  }

  /** A least include decides for all of its batch. */
  lemma LeadDecides(c: Context, edge: Includes, includes: Includes, least: Snippet)
    requires least in includes && forall i :: 0 <= i < |includes| ==> !Odd(includes[i]) && !Before(c, includes[i], least)
    ensures AllAccepted(c, edge, includes) <==> AllAccepted(c, edge, [least])
  {
    hide OrderAccepted, Before;
    var k :| 0 <= k < |includes| && includes[k] == least;
    forall i, j | 0 <= i < |edge| && 0 <= j < |includes|
      ensures OrderAccepted(c, edge[i], least) ==> OrderAccepted(c, edge[i], includes[j])
    {
      AcceptedIsOrdered(c, edge[i], least);
      AcceptedIsOrdered(c, edge[i], includes[j]);
      if !Before(c, least, edge[i]) {
        NotBeforeTransitive(c, edge[i], least, includes[j]);
      }
    }
    assert [least][0] == least;
  }

  /** The first include of the sorted batch is a least one, the last a greatest. */
  lemma SortedEnds(c: Context, includes: Includes)
    requires includes != [] && !Exempt(c, includes)
    ensures var s := SortByKey(c, includes);
            && s != [] && s[0] in includes && s[|s| - 1] in includes
            && forall i :: 0 <= i < |includes| ==> !Odd(includes[i]) && !Before(c, includes[i], s[0]) && !Before(c, s[|s| - 1], includes[i])
  {
    hide Before, SortByKey, Exempt;
    var s := SortByKey(c, includes);
    SortIsSorted(c, includes);
    ExemptOdd(c, includes);
    assert multiset(s)[includes[0]] > 0;
    assert s[0] in multiset(s) && s[|s| - 1] in multiset(s);
    forall i | 0 <= i < |includes|
      ensures !Before(c, includes[i], s[0]) && !Before(c, s[|s| - 1], includes[i])
    {
      assert includes[i] in multiset(s);
      var k :| 0 <= k < |s| && s[k] == includes[i];
      OrderedPairs(c, s, 0, k);
      OrderedPairs(c, s, k, |s| - 1);
    }
  }

  // ----- one batch

  /** What the batch becomes. */
  function Final(c: Context, includes: Includes): Includes {
    if Exempt(c, includes) then includes else SortByKey(c, includes)
  }

  predicate Chain(c: Context, prev: Option<Snippet>, includes: Includes) {
    (includes != [] ==> Follows(c, prev, includes[0])) && PairsAccepted(c, includes)
  }

  function LastOf(prev: Option<Snippet>, includes: Includes): Option<Snippet> {
    if includes == [] then prev else Some(includes[|includes| - 1])
  }

  lemma FlushIsFinal(c: Context, batch: seq<Snippet>)
    requires Batch(batch) && Flush(c, batch).Some?
    ensures Batch(Flush(c, batch).value) && IncludesOf(Flush(c, batch).value) == Final(c, IncludesOf(batch))
  {
    hide Flush, IncludesOf, SortByKey, Exempt;
    FlushFacts(c, batch);
  }

  lemma OrderedIsAccepted(c: Context, s: Includes)
    requires InOrder(c, s)
    ensures PairsAccepted(c, s)
  {
    hide OrderAccepted, Before;
    forall i | 0 <= i < |s| - 1
      ensures OrderAccepted(c, s[i], s[i + 1])
    {
      AcceptedIsOrdered(c, s[i], s[i + 1]);
    }
  }

  lemma EmptySorted(c: Context)
    ensures SortByKey(c, []) == []
  {
  }

  lemma FinalPasses(c: Context, prev: Option<Snippet>, edge: Includes, includes: Includes)
    requires Stands(c, prev, edge)
    ensures Chain(c, prev, Final(c, includes)) <==> BatchPasses(c, edge, includes)
  {
    hide Exempt, SortByKey, Stands, AllAccepted, PairsAccepted, Follows, InOrder;
    var s := Final(c, includes);
    NothingAccepted(c, edge);
    EmptySorted(c);
    if includes == [] {
      assert PairsAccepted(c, []) by { OneIsAccepted(c, []); }
    } else if Exempt(c, includes) {
      EdgeDecides(c, prev, edge, includes[0]);
      assert includes[..1] == [includes[0]];
    } else {
      SortedEnds(c, includes);
      EdgeDecides(c, prev, edge, s[0]);
      LeadDecides(c, edge, includes, s[0]);
      SortIsSorted(c, includes);
      OrderedIsAccepted(c, s);
    }
  }

  lemma NothingAccepted(c: Context, edge: Includes)
    ensures AllAccepted(c, edge, [])
  {
  }

  lemma OneIsAccepted(c: Context, s: Includes)
    requires |s| <= 1
    ensures PairsAccepted(c, s)
  {
  }

  lemma FinalStands(c: Context, prev: Option<Snippet>, edge: Includes, includes: Includes)
    requires Stands(c, prev, edge)
    ensures Stands(c, LastOf(prev, Final(c, includes)), Trail(c, edge, includes))
  {
    hide Exempt, SortByKey, Before;
    EmptySorted(c);
    if includes != [] {
      if Exempt(c, includes) {
        assert includes[|includes| - 1..] == [includes[|includes| - 1]];
      } else {
        SortedEnds(c, includes);
      }
    }
  }

  /** A batch passes as a chain from what precedes it. */
  lemma {:induction false} PassBatchFirst(c: Context, a: seq<Snippet>, rest: seq<Snippet>, prev: Option<Snippet>)
    requires Batch(a)
    ensures Passes(c, a + rest, prev) <==> Chain(c, prev, IncludesOf(a)) && Passes(c, rest, LastOf(prev, IncludesOf(a)))
    decreases |a|
  {
    hide Follows, IncludesOf, PairsAccepted;
    if a == [] {
      assert a + rest == rest;
      NoIncludes();
      OneIsAccepted(c, []);
    } else {
      assert (a + rest)[1..] == a[1..] + rest;
      assert [a[0]] + a[1..] == a;
      IncludesAppend([a[0]], a[1..]);
      OneInclude(a[0]);
      if a[0].Include? {
        PassBatchFirst(c, a[1..], rest, Some(a[0]));
        ChainStep(c, a[0], IncludesOf(a[1..]));
      } else {
        PassBatchFirst(c, a[1..], rest, prev);
        assert [] + IncludesOf(a[1..]) == IncludesOf(a[1..]);
      }
    }
  }

  lemma ChainStep(c: Context, x: Snippet, s: Includes)
    requires x.Include?
    ensures PairsAccepted(c, [x] + s) <==> Chain(c, Some(x), s)
  {
    hide OrderAccepted;
    var u := [x] + s;
    assert forall i :: 0 <= i < |s| ==> u[i + 1] == s[i];
    if PairsAccepted(c, u) {
      forall i | 0 <= i < |s| - 1
        ensures OrderAccepted(c, s[i], s[i + 1])
      {
        assert OrderAccepted(c, u[i + 1], u[i + 2]);
      }
      assert s != [] ==> OrderAccepted(c, u[0], u[1]);
    }
    if Chain(c, Some(x), s) {
      forall i | 0 <= i < |u| - 1
        ensures OrderAccepted(c, u[i], u[i + 1])
      {
        assert i > 0 ==> u[i] == s[i - 1] && u[i + 1] == s[i];
      }
    }
  }

  // ----- the whole block

  lemma {:induction false} KidsPass(c: Context, kids: seq<Snippet>, batch: seq<Snippet>, prev: Option<Snippet>, edge: Includes)
    requires Batch(batch) && SortedKids(c, kids, batch).Some? && Stands(c, prev, edge)
    ensures Passes(c, SortedKids(c, kids, batch).value, prev) <==> BatchesFit(c, kids, batch, edge)
    decreases kids
  {
    hide Batchable, Flush, IncludesOf, Stands, Chain, BatchPasses, Final, Trail, LastOf;
    var out := SortedKids(c, kids, batch).value;
    if kids == [] {
      FlushPasses(c, batch, [], prev, edge);
      assert out + [] == out;
    } else if Batchable(kids[0]) {
      KidsPass(c, kids[1..], batch + [kids[0]], prev, edge);
    } else {
      var flushed, rest := Flush(c, batch).value, SortedKids(c, kids[1..], []).value;
      var kid := if kids[0].Block? then Sorted(c, kids[0]).value else kids[0];
      var last := LastOf(prev, Final(c, IncludesOf(batch)));
      FlushPasses(c, batch, [kid] + rest, prev, edge);
      NothingStands(c, kid);
      NothingStands(c, kids[0]);
      WallPasses(c, kid, rest, last);
      if kids[0].Block? {
        KidsPass(c, kids[0].kids, [], None, []);
        KidsPass(c, kids[1..], [], Some(kid), []);
      } else {
        FinalStands(c, prev, edge, IncludesOf(batch));
        KidsPass(c, kids[1..], [], last, Trail(c, edge, IncludesOf(batch)));
      }
    }
  }

  lemma FlushPasses(c: Context, batch: seq<Snippet>, rest: seq<Snippet>, prev: Option<Snippet>, edge: Includes)
    requires Batch(batch) && Flush(c, batch).Some? && Stands(c, prev, edge)
    ensures Passes(c, Flush(c, batch).value + rest, prev)
            <==> BatchPasses(c, edge, IncludesOf(batch)) && Passes(c, rest, LastOf(prev, Final(c, IncludesOf(batch))))
    ensures Passes(c, [], LastOf(prev, Final(c, IncludesOf(batch))))
  {
    hide Flush, IncludesOf, Stands, Chain, BatchPasses, Final, LastOf;
    FlushIsFinal(c, batch);
    PassBatchFirst(c, Flush(c, batch).value, rest, prev);
    FinalPasses(c, prev, edge, IncludesOf(batch));
  }

  lemma NothingStands(c: Context, kid: Snippet)
    ensures Stands(c, None, []) && (kid.Block? ==> Stands(c, Some(kid), []))
    ensures kid.Include? ==> Batchable(kid)
  {
  }

  lemma WallPasses(c: Context, kid: Snippet, rest: seq<Snippet>, prev: Option<Snippet>)
    requires !kid.Include?
    ensures Passes(c, [kid] + rest, prev) <==>
            if kid.Block? then Passes(c, kid.kids, None) && Passes(c, rest, Some(kid)) else Passes(c, rest, prev)
  {
    assert ([kid] + rest)[1..] == rest;
  }

  /** A repaired block passes the checker exactly when, across code that is not blank, includes already fit
      each other, and the batches that are left alone are accepted as they stand. */
  lemma SortedPassesIff(c: Context, block: Snippet)
    requires block.Block? && Sorted(c, block).Some?
    ensures Passes(c, Sorted(c, block).value.kids, None) <==> BatchesFit(c, block.kids, [], [])
  {
    NothingStands(c, block);
    KidsPass(c, block.kids, [], None, []);
  }

  // ----- failing inputs

  /** Repairing does not reach across code: two includes in the wrong order on both sides of it stay as they
      are, and the checker goes on rejecting them. */
  lemma CodeKeepsDisorder(c: Context, a: Snippet, code: Snippet, b: Snippet)
    requires a.Include? && code.Code? && !Batchable(code) && b.Include? && !OrderAccepted(c, a, b)
    ensures var block := Block("", [a, code, b], ""); Sorted(c, block) == Some(block) && !Passes(c, block.kids, None)
  {
    var kids := [a, code, b];
    assert kids[1..] == [code, b] && [code, b][1..] == [b] && [b][1..] == [];
    OneInclude(a);
    OneInclude(b);
    OneIsAccepted(c, [a]);
    StaysAlone(c, a);
    StaysAlone(c, b);
    assert SortedKids(c, [b], []) == SortedKids(c, [], [] + [b]) == Some([b]);
    assert SortedKids(c, [code, b], [a]) == Some([a] + ([code] + [b]));
    assert [a] + ([code] + [b]) == kids;
    assert SortedKids(c, kids, []) == SortedKids(c, kids[1..], [] + [a]);
    assert !Passes(c, [b], Some(a));
    assert !Passes(c, [code, b], Some(a));
  }

  lemma StaysAlone(c: Context, a: Snippet)
    requires a.Include?
    ensures Flush(c, [a]) == Some([a]) && Batch([a]) && [] + [a] == [a]
  {
    OneInclude(a);
    SortKeepsOrdered(c, [a]);
    assert InOrder(c, [a]);
  }

  function Header(first: char, linenum: nat): Snippet {
    Include("#include ", [first, '.', 'h'], "", linenum, false)
  }

  /** Two names that differ in case only, after one that sorts behind them: sorting raises. */
  lemma SameKeysRaise(linenum: nat)
    ensures SortedKids(Context("", {}), [Header('b', linenum), Header('A', linenum + 1), Header('a', linenum + 2)], []) == None
  {
    hide Section, Lower, Contains, Flush, SortedKids, EndsWith, Exempt, IncludesOf, Batchable;
    var c := Context("", {});
    var includes: Includes := [Header('b', linenum), Header('A', linenum + 1), Header('a', linenum + 2)];
    IncludesOnly(includes);
    SortBatchFirst(c, includes, [], []);
    assert includes + [] == includes && [] + includes == includes;
    HeaderKey(c, 'b', linenum);
    HeaderKey(c, 'A', linenum + 1);
    HeaderKey(c, 'a', linenum + 2);
    assert "a.h"[0] < "b.h"[0];
    assert Before(c, includes[1], includes[0]) && SameKey(c, includes[1], includes[2]);
    NothingOdd(c, includes);
    FlushRefuses(c, includes);
    NoKids(c, includes);
  }

  lemma NoKids(c: Context, batch: seq<Snippet>)
    ensures SortedKids(c, [], batch) == Flush(c, batch)
  {
  }

  lemma NothingOdd(c: Context, includes: Includes)
    requires c.enclosing == "" && forall i :: 0 <= i < |includes| ==> !Odd(includes[i])
    ensures !Exempt(c, includes)
  {
  }

  lemma HeaderKey(c: Context, first: char, linenum: nat)
    requires c.moduleHeaders == {} && first in "bAa"
    ensures Section(c, Header(first, linenum)) == 3
    ensures Lower(Header(first, linenum).inclname) == [LowerChar(first), '.', 'h']
    ensures !Odd(Header(first, linenum))
  {
    var name := [first, '.', 'h'];
    assert name[1..] == ['.', 'h'] && ['.', 'h'][1..] == ['h'] && ['h'][1..] == "";
    assert Lower(['h']) == "h" && Lower(['.', 'h']) == ".h";
    assert !EndsWith(name, "inlines.h") && EndsWith(name, ".h") && '/' !in name;
    assert |name| == 3;
  }
}
