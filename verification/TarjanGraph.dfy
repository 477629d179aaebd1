/** Directed graphs, reachability and the loop invariant of Tarjan's algorithm. */
module TarjanGraph {
  import opened Basics


  type Graph<!V> = map<V, seq<V>>

  ghost predicate Succ<V>(E: Graph<V>, x: V, y: V) {
    x in E && y in E[x]
  }

  /** Every edge leads to a vertex that has an edge list of its own. */
  ghost predicate WellFormed<V(!new)>(E: Graph<V>) {
    forall x, y :: Succ(E, x, y) ==> y in E
  }

  ghost predicate Closed<V(!new)>(E: Graph<V>, C: set<V>) {
    forall x, y :: x in C && Succ(E, x, y) ==> y in C
  }

  /** y lies in every closed set around x. */
  ghost predicate Reach<V(!new)>(E: Graph<V>, x: V, y: V) {
    forall C: set<V> :: x in C && Closed(E, C) ==> y in C
  }

  ghost predicate Mutual<V(!new)>(E: Graph<V>, x: V, y: V) {
    Reach(E, x, y) && Reach(E, y, x)
  }

  lemma ReachTransitive<V(!new)>(E: Graph<V>, x: V, y: V, z: V)
    requires Reach(E, x, y) && Reach(E, y, z)
    ensures Reach(E, x, z)
  {
  }

  lemma ReachEdge<V(!new)>(E: Graph<V>, x: V, y: V)
    requires Succ(E, x, y)
    ensures Reach(E, x, y)
  {
  }

  // ----- reachability is the existence of a path

  ghost predicate IsPath<V>(E: Graph<V>, p: seq<V>) {
    p != [] && forall i :: 0 <= i < |p| - 1 ==> Succ(E, p[i], p[i + 1])
  }

  ghost predicate PathBetween<V(!new)>(E: Graph<V>, x: V, y: V) {
    exists p :: IsPath(E, p) && p[0] == x && p[|p| - 1] == y
  }

  lemma {:induction false} PathStaysIn<V(!new)>(E: Graph<V>, p: seq<V>, C: set<V>)
    requires IsPath(E, p) && p[0] in C && Closed(E, C)
    ensures p[|p| - 1] in C
  {
    if |p| > 1 {
      var q := p[..|p| - 1];
      assert IsPath(E, q);
      PathStaysIn(E, q, C);
      assert Succ(E, p[|p| - 2], p[|p| - 1]);
    }
  }

  lemma ReachIsPath<V(!new)>(E: Graph<V>, x: V, y: V)
    requires WellFormed(E) && x in E
    ensures Reach(E, x, y) <==> PathBetween(E, x, y)
  {
    if PathBetween(E, x, y) {
      var p :| IsPath(E, p) && p[0] == x && p[|p| - 1] == y;
      forall C: set<V> | x in C && Closed(E, C)
        ensures y in C
      {
        PathStaysIn(E, p, C);
      }
    }
    if Reach(E, x, y) {
      var C := set z | z in E && PathBetween(E, x, z);
      assert IsPath(E, [x]);
      assert x in C;
      forall u, w | u in C && Succ(E, u, w)
        ensures w in C
      {
        var p :| IsPath(E, p) && p[0] == x && p[|p| - 1] == u;
        assert IsPath(E, p + [w]);
        assert (p + [w])[0] == x && (p + [w])[|p + [w]| - 1] == w;
      }
      assert Closed(E, C);
    }
  }

  // ----- components

  /** c lists, once each, the vertices that reach and are reached from any one of them. */
  ghost predicate IsComponent<V(!new)>(E: Graph<V>, c: seq<V>) {
    && c != [] && Distinct(c)
    && (forall x, y :: x in c && y in c ==> Mutual(E, x, y))
    && (forall x, z :: x in c && Mutual(E, x, z) ==> z in c)
  }

  ghost function Flat<V>(sccs: seq<seq<V>>): set<V> {
    if sccs == [] then {}
    else Flat(sccs[..|sccs| - 1]) + Elements(sccs[|sccs| - 1])
  }

  lemma {:induction false} FlatMember<V>(sccs: seq<seq<V>>, x: V)
    ensures x in Flat(sccs) <==> exists k :: 0 <= k < |sccs| && x in sccs[k]
  {
    if sccs != [] {
      var n := |sccs| - 1;
      FlatMember(sccs[..n], x);
      if x in Flat(sccs[..n]) {
        var k :| 0 <= k < n && x in sccs[..n][k];
        assert x in sccs[k];
      }
      if k :| 0 <= k < |sccs| && x in sccs[k] && k < n {
        assert x in sccs[..n][k];
      }
    }
  }

  /** Components emitted so far: each is one, is new, and together with the earlier ones closed under edges. */
  ghost predicate Emitted<V(!new)>(E: Graph<V>, sccs: seq<seq<V>>) {
    && (forall k :: 0 <= k < |sccs| ==> IsComponent(E, sccs[k]))
    && (forall k, x :: 0 <= k < |sccs| && x in sccs[k] ==> x !in Flat(sccs[..k]))
    && (forall k :: 0 <= k <= |sccs| ==> Closed(E, Flat(sccs[..k])))
  }

  lemma EmitOne<V(!new)>(E: Graph<V>, sccs: seq<seq<V>>, c: seq<V>)
    requires Emitted(E, sccs) && IsComponent(E, c)
    requires forall x :: x in c ==> x !in Flat(sccs)
    requires Closed(E, Flat(sccs) + Elements(c))
    ensures Emitted(E, sccs + [c])
    ensures Flat(sccs + [c]) == Flat(sccs) + Elements(c)
  {
    hide IsComponent, Closed, Flat;
    var all := sccs + [c];
    FlatAppend(sccs, c);
    forall k | 0 <= k <= |all|
      ensures Closed(E, Flat(all[..k]))
    {
      if k <= |sccs| {
        assert all[..k] == sccs[..k];
      } else {
        assert all[..k] == all;
      }
    }
    forall k, x | 0 <= k < |all| && x in all[k]
      ensures x !in Flat(all[..k])
    {
      assert all[..k] == sccs[..k];
      assert sccs[..|sccs|] == sccs;
    }
  }

  lemma FlatAppend<V>(sccs: seq<seq<V>>, c: seq<V>)
    ensures Flat(sccs + [c]) == Flat(sccs) + Elements(c)
  {
    assert (sccs + [c])[..|sccs|] == sccs;
  }

  // ----- the state of the search

  /** dfs numbers, the next number, the stack and the components emitted. */
  datatype State<V> = State(idx: map<V, nat>, index: nat, S: seq<V>, sccs: seq<seq<V>>)

  /** The stack lists visited vertices in order of their numbers. */
  ghost predicate StackOk<V>(s: State<V>) {
    && (forall i :: 0 <= i < |s.S| ==> s.S[i] in s.idx)
    && (forall i, j :: 0 <= i < j < |s.S| ==> s.idx[s.S[i]] < s.idx[s.S[j]])
    && (forall x :: x in s.idx ==> s.idx[x] < s.index)
  }

  /** A visited vertex is on the stack or emitted; successors of finished vertices are visited. */
  ghost predicate Colors<V(!new)>(E: Graph<V>, s: State<V>, gray: set<V>) {
    && (forall x :: x in s.idx <==> x in s.S || x in Flat(s.sccs))
    && (forall x :: x in s.S ==> x !in Flat(s.sccs))
    && (forall x :: x in gray ==> x in s.S)
    && (forall x :: x in s.idx ==> x in E)
    && (forall x, y :: x in s.idx && x !in gray && Succ(E, x, y) ==> y in s.idx)
  }

  /** A vertex under exploration reaches everything above it on the stack. */
  ghost predicate GrayReaches<V(!new)>(E: Graph<V>, s: State<V>, gray: set<V>)
    requires StackOk(s)
  {
    forall x, y :: x in gray && x in s.S && y in s.S && s.idx[x] <= s.idx[y] ==> Reach(E, x, y)
  }

  /** Everything on the stack reaches some vertex under exploration at or below it. */
  ghost predicate ReachesGray<V(!new)>(E: Graph<V>, s: State<V>, gray: set<V>)
    requires StackOk(s)
  {
    forall y :: y in s.S ==> GrayBelow(E, s, gray, y)
  }

  ghost predicate GrayBelow<V(!new)>(E: Graph<V>, s: State<V>, gray: set<V>, y: V)
    requires StackOk(s) && y in s.S
  {
    exists x :: x in gray && x in s.S && s.idx[x] <= s.idx[y] && Reach(E, y, x)
  }

  ghost predicate Inv<V(!new)>(E: Graph<V>, s: State<V>, gray: set<V>) {
    && WellFormed(E)
    && StackOk(s)
    && Colors(E, s, gray)
    && GrayReaches(E, s, gray)
    && ReachesGray(E, s, gray)
    && Emitted(E, s.sccs)
  }

  ghost predicate AccessTo<V(!new)>(E: Graph<V>, gray: set<V>, v: V) {
    forall x :: x in gray ==> Reach(E, x, v)
  }

  /** strongconnect(v) starts: v gets the next number and goes on the stack. */
  function Enter<V>(s: State<V>, v: V): State<V> {
    s.(idx := s.idx[v := s.index], index := s.index + 1, S := s.S + [v])
  }

  lemma EnterKeepsInv<V(!new)>(E: Graph<V>, s: State<V>, gray: set<V>, v: V)
    requires Inv(E, s, gray) && v in E && v !in s.idx && AccessTo(E, gray, v)
    ensures Inv(E, Enter(s, v), gray + {v})
  {
    hide Reach, Emitted, Flat, Succ, Colors, GrayReaches, ReachesGray, WellFormed;
    EnterKeepsStack(s, v);
    EnterKeepsColors(E, s, gray, v);
    EnterKeepsReach(E, s, gray, v);
  }

  lemma EnterKeepsStack<V(!new)>(s: State<V>, v: V)
    requires StackOk(s) && v !in s.idx
    ensures StackOk(Enter(s, v))
  {
  }

  lemma EnterKeepsColors<V(!new)>(E: Graph<V>, s: State<V>, gray: set<V>, v: V)
    requires Colors(E, s, gray) && v in E && v !in s.idx
    ensures Colors(E, Enter(s, v), gray + {v})
  {
    hide Flat;
    assert forall y :: y in Enter(s, v).S <==> y in s.S || y == v;
  }

  lemma EnterKeepsReach<V(!new)>(E: Graph<V>, s: State<V>, gray: set<V>, v: V)
    requires StackOk(s) && GrayReaches(E, s, gray) && ReachesGray(E, s, gray)
    requires v !in s.idx && AccessTo(E, gray, v)
    requires forall x :: x in s.S ==> x in s.idx
    requires StackOk(Enter(s, v))
    ensures GrayReaches(E, Enter(s, v), gray + {v}) && ReachesGray(E, Enter(s, v), gray + {v})
  {
    hide Reach, GrayReaches, GrayBelow, StackOk;
    EnterKeepsGrayReaches(E, s, gray, v);
    forall y | y in Enter(s, v).S
      ensures GrayBelow(E, Enter(s, v), gray + {v}, y)
    {
      if y == v {
        GrayBelowSelf(E, Enter(s, v), gray + {v}, v);
      } else {
        GrayBelowGrows(E, s, Enter(s, v), gray, gray + {v}, y);
      }
    }
  }

  lemma GrayBelowSelf<V(!new)>(E: Graph<V>, s: State<V>, gray: set<V>, v: V)
    requires StackOk(s) && v in s.S && v in gray
    ensures GrayBelow(E, s, gray, v)
  {
    ReachSelf(E, v);
  }

  lemma GrayBelowGrows<V(!new)>(E: Graph<V>, s: State<V>, s': State<V>, gray: set<V>, gray': set<V>, y: V)
    requires StackOk(s) && StackOk(s') && y in s.S && y in s'.S
    requires gray <= gray' && s.S <= s'.S
    requires forall x :: x in s.idx && x in s.S ==> x in s'.idx && s'.idx[x] == s.idx[x]
    requires GrayBelow(E, s, gray, y)
    ensures GrayBelow(E, s', gray', y)
  {
    hide Reach;
    var x :| x in gray && x in s.S && s.idx[x] <= s.idx[y] && Reach(E, y, x);
    assert x in s'.S;
  }

  lemma EnterKeepsGrayReaches<V(!new)>(E: Graph<V>, s: State<V>, gray: set<V>, v: V)
    requires StackOk(s) && GrayReaches(E, s, gray)
    requires v !in s.idx && AccessTo(E, gray, v)
    requires StackOk(Enter(s, v))
    ensures GrayReaches(E, Enter(s, v), gray + {v})
  {
    hide Reach;
    var s' := Enter(s, v);
    ReachSelf(E, v);
    assert forall y :: y in s.S ==> y in s.idx && s'.idx[y] == s.idx[y] && s.idx[y] < s.index;
  }

  lemma ReachSelf<V(!new)>(E: Graph<V>, v: V)
    ensures Reach(E, v, v)
  {
  }

  // ----- what strongconnect(v) does to the state

  ghost predicate Extends<V(!new)>(s: State<V>, s': State<V>) {
    && (forall x :: x in s.idx ==> x in s'.idx && s'.idx[x] == s.idx[x])
    && (forall x :: x in s'.idx && x !in s.idx ==> s.index <= s'.idx[x])
    && s.index <= s'.index
    && s.S <= s'.S && s.sccs <= s'.sccs
  }

  /** low is the number of some vertex on the stack that v reaches. */
  ghost predicate LowReached<V(!new)>(E: Graph<V>, s: State<V>, v: V, low: nat) {
    exists y :: y in s.S && y in s.idx && s.idx[y] == low && Reach(E, v, y)
  }

  /** No edge from the stack above base into base goes below low; v's edges count up to the k-th. */
  ghost predicate Crossing<V(!new)>(E: Graph<V>, s: State<V>, base: seq<V>, v: V, k: nat, low: nat)
  {
    && base <= s.S && v in E && k <= |E[v]|
    && (forall i, y :: |base| <= i < |s.S| && s.S[i] != v && y in base && y in s.idx && Succ(E, s.S[i], y) ==> low <= s.idx[y])
    && (forall j :: 0 <= j < k && E[v][j] in base && E[v][j] in s.idx ==> low <= s.idx[E[v][j]])
  }

  ghost predicate Child<V>(E: Graph<V>, v: V, k: nat, w: V) {
    v in E && k < |E[v]| && E[v][k] == w
  }

  /** The result of strongconnect(v) called in state s with the gray vertices under exploration. */
  ghost predicate Connected<V(!new)>(E: Graph<V>, s: State<V>, s': State<V>, gray: set<V>, v: V, low: nat) {
    && Inv(E, s', gray) && Extends(s, s')
    && v in E && v in s'.idx && s'.idx[v] == s.index && low <= s.index
    && (v in s'.S ==> LowReached(E, s', v, low) && Crossing(E, s', s.S, v, |E[v]|, low))
    && (v !in s'.S ==> s'.S == s.S && low == s.index)
  }

  /** The loop over the successors of v has handled the first k of them. */
  ghost predicate Exploring<V(!new)>(E: Graph<V>, s0: State<V>, s: State<V>, gray: set<V>, v: V, k: nat, low: nat) {
    && Inv(E, s, gray + {v}) && Extends(Enter(s0, v), s)
    && v in E && k <= |E[v]|
    && low <= s0.index && LowReached(E, s, v, low)
    && (forall j :: 0 <= j < k ==> E[v][j] in s.idx)
    && Crossing(E, s, s0.S, v, k, low)
  }

  /** v keeps its position and its number. */
  lemma ExploringFacts<V(!new)>(E: Graph<V>, s0: State<V>, s: State<V>, gray: set<V>, v: V, k: nat, low: nat)
    requires Exploring(E, s0, s, gray, v, k, low)
    ensures v in s.idx && s.idx[v] == s0.index
    ensures |s0.S| < |s.S| && s0.S == s.S[..|s0.S|] && s.S[|s0.S|] == v && v in s.S
  {
    hide Inv, LowReached, Crossing;
    assert Enter(s0, v).S[|s0.S|] == v;
    assert s.S[..|s0.S| + 1] == Enter(s0, v).S;
  }

  lemma ExploringStart<V(!new)>(E: Graph<V>, s: State<V>, gray: set<V>, v: V)
    requires Inv(E, s, gray) && v in E && v !in s.idx && AccessTo(E, gray, v)
    ensures Exploring(E, s, Enter(s, v), gray, v, 0, s.index)
  {
    hide Reach, Emitted, Flat, Succ, Colors, GrayReaches, ReachesGray, WellFormed;
    EnterKeepsInv(E, s, gray, v);
    ReachSelf(E, v);
    var s' := Enter(s, v);
    assert s'.S[|s.S|] == v;
  }

  lemma LowShrinks<V(!new)>(E: Graph<V>, s: State<V>, base: seq<V>, v: V, k: nat, low: nat, low': nat)
    requires Crossing(E, s, base, v, k, low) && low' <= low && k < |E[v]|
    requires E[v][k] in base && E[v][k] in s.idx ==> low' <= s.idx[E[v][k]]
    ensures Crossing(E, s, base, v, k + 1, low')
  {
  }

  /** The k-th successor is already visited: on the stack it bounds low, emitted it does not matter. */
  lemma ExploreVisited<V(!new)>(E: Graph<V>, s0: State<V>, s: State<V>, gray: set<V>, v: V, k: nat, w: V, low: nat, low': nat)
    requires Exploring(E, s0, s, gray, v, k, low) && Child(E, v, k, w)
    requires w in s.idx
    requires low' == if w in s.S && s.idx[w] < low then s.idx[w] else low
    ensures Exploring(E, s0, s, gray, v, k + 1, low')
  {
    hide Inv, Extends, Reach, Crossing;
    ExploringFacts(E, s0, s, gray, v, k, low);
    assert Succ(E, v, w);
    ReachEdge(E, v, w);
    assert w in s0.S ==> w in s.S;
    LowShrinks(E, s, s0.S, v, k, low, low');
  }

  /** The k-th successor w was unvisited and has been explored: its low joins v's. */
  lemma ExploreChild<V(!new)>(E: Graph<V>, s0: State<V>, s: State<V>, s': State<V>, gray: set<V>, v: V, k: nat, w: V,
                              low: nat, lowW: nat, low': nat)
    requires Exploring(E, s0, s, gray, v, k, low) && Child(E, v, k, w)
    requires w !in s.idx
    requires Connected(E, s, s', gray + {v}, w, lowW)
    requires low' == if lowW < low then lowW else low
    ensures Exploring(E, s0, s', gray, v, k + 1, low')
  {
    hide Inv, Reach, Crossing, LowReached, StackOk;
    ExploringFacts(E, s0, s, gray, v, k, low);
    assert Succ(E, v, w);
    assert Enter(s0, v).S <= s'.S;
    ChildLow(E, s, s', v, w, low, lowW, low');
    ChildCrossing(E, s0, s, s', gray, v, k, w, low, lowW, low');
    ExtendsTransitive(Enter(s0, v), s, s');
  }

  lemma ExtendsTransitive<V(!new)>(a: State<V>, b: State<V>, c: State<V>)
    requires Extends(a, b) && Extends(b, c)
    ensures Extends(a, c)
  {
  }

  lemma ChildLow<V(!new)>(E: Graph<V>, s: State<V>, s': State<V>, v: V, w: V, low: nat, lowW: nat, low': nat)
    requires Succ(E, v, w) && LowReached(E, s, v, low) && Extends(s, s')
    requires low <= s.index
    requires w in s'.S ==> LowReached(E, s', w, lowW)
    requires w !in s'.S ==> lowW == s.index
    requires low' == if lowW < low then lowW else low
    ensures LowReached(E, s', v, low')
  {
    hide Reach;
    if lowW < low {
      var y :| y in s'.S && y in s'.idx && s'.idx[y] == lowW && Reach(E, w, y);
      ReachEdge(E, v, w);
      ReachTransitive(E, v, w, y);
    } else {
      var y :| y in s.S && y in s.idx && s.idx[y] == low && Reach(E, v, y);
      assert y in s'.S;
    }
  }

  lemma ChildCrossing<V(!new)>(E: Graph<V>, s0: State<V>, s: State<V>, s': State<V>, gray: set<V>, v: V, k: nat, w: V,
                               low: nat, lowW: nat, low': nat)
    requires Exploring(E, s0, s, gray, v, k, low) && Child(E, v, k, w)
    requires w !in s.idx
    requires Connected(E, s, s', gray + {v}, w, lowW)
    requires low' == if lowW < low then lowW else low
    ensures Crossing(E, s', s0.S, v, k + 1, low')
  {
    hide Reach, LowReached, Inv, Colors, GrayReaches, ReachesGray, Emitted;
    var b := |s0.S|;
    ExploringFacts(E, s0, s, gray, v, k, low);
    InStackIsVisited(E, s, gray + {v});
    assert s0.S <= s.S <= s'.S;
    assert forall y :: y in s0.S ==> y in s.S;
    forall i, y | b <= i < |s'.S| && s'.S[i] != v && y in s0.S && y in s'.idx && Succ(E, s'.S[i], y)
      ensures low' <= s'.idx[y]
    {
      if i < |s.S| {
        assert s'.S[i] == s.S[i];
      } else if s'.S[i] == w {
        var j :| 0 <= j < |E[w]| && E[w][j] == y;
      }
    }
  }

  lemma InStackIsVisited<V(!new)>(E: Graph<V>, s: State<V>, gray: set<V>)
    requires Inv(E, s, gray)
    ensures forall y :: y in s.S ==> y in s.idx
    ensures forall i, j :: 0 <= i < j < |s.S| ==> s.S[i] != s.S[j]
  {
  }

  // ----- strongconnect(v) ends

  /** The loop over v's successors is over. */
  ghost predicate Explored<V(!new)>(E: Graph<V>, s0: State<V>, s: State<V>, gray: set<V>, v: V, low: nat) {
    && Inv(E, s0, gray) && v !in s0.idx && v in E
    && Exploring(E, s0, s, gray, v, |E[v]|, low)
  }

  /** The part of the stack that starts at v. */
  ghost function Above<V>(s0: State<V>, s: State<V>): seq<V> {
    if |s0.S| <= |s.S| then s.S[|s0.S|..] else []
  }

  lemma ExploredFacts<V(!new)>(E: Graph<V>, s0: State<V>, s: State<V>, gray: set<V>, v: V, low: nat)
    requires Explored(E, s0, s, gray, v, low)
    ensures v in s.idx && s.idx[v] == s0.index
    ensures |s0.S| < |s.S| && s0.S == s.S[..|s0.S|] && s.S[|s0.S|] == v && v in s.S
    ensures s.S == s0.S + Above(s0, s) && Above(s0, s) != [] && Above(s0, s)[0] == v
    ensures Inv(E, s, gray + {v}) && Inv(E, s0, gray) && v in E
  {
    hide Inv, Crossing, LowReached, Extends;
    ExploringFacts(E, s0, s, gray, v, |E[v]|, low);
  }

  /** No edge leads from the part of the stack that starts at v down below it. */
  lemma NoEdgeBelow<V(!new)>(E: Graph<V>, s0: State<V>, s: State<V>, gray: set<V>, v: V, low: nat, x: V, y: V)
    requires Explored(E, s0, s, gray, v, low)
    requires x in Above(s0, s) && Succ(E, x, y) && y in s0.S
    ensures y in s.idx && low <= s.idx[y] && s.idx[y] < s0.index
  {
    hide Reach, LowReached, GrayReaches, ReachesGray, Emitted, Colors;
    ExploredFacts(E, s0, s, gray, v, low);
    InStackIsVisited(E, s0, gray);
    InStackIsVisited(E, s, gray + {v});
    var i :| |s0.S| <= i < |s.S| && s.S[i] == x;
    if x == v {
      var j :| 0 <= j < |E[v]| && E[v][j] == y;
    }
  }

  /** Vertices that have left the search or sit above v have only visited successors. */
  lemma SuccessorsVisited<V(!new)>(E: Graph<V>, s0: State<V>, s: State<V>, gray: set<V>, v: V, low: nat, x: V, y: V)
    requires Explored(E, s0, s, gray, v, low)
    requires x in s.idx && x !in gray && Succ(E, x, y)
    ensures y in s.idx
  {
    hide Reach, LowReached, GrayReaches, ReachesGray, Emitted, Crossing, StackOk;
    if x == v {
      var j :| 0 <= j < |E[v]| && E[v][j] == y;
    }
  }

  lemma GrayIsBelow<V(!new)>(E: Graph<V>, s0: State<V>, s: State<V>, gray: set<V>, v: V, low: nat, x: V)
    requires Explored(E, s0, s, gray, v, low)
    requires x in s.S
    ensures x in Above(s0, s) <==> x !in s0.S
    ensures x in Above(s0, s) ==> x in s.idx && s0.index <= s.idx[x]
    ensures x in s0.S ==> x in s.idx && s.idx[x] < s0.index
    ensures x in gray ==> x in s0.S
    ensures v !in gray
  {
    hide Reach, LowReached, GrayReaches, ReachesGray, Emitted, Crossing;
    ExploredFacts(E, s0, s, gray, v, low);
    assert s.S == s0.S + Above(s0, s);
    InStackIsVisited(E, s, gray + {v});
    var b := |s0.S|;
    if x in s.S[b..] {
      var i :| b <= i < |s.S| && s.S[i] == x;
      assert x !in s0.S;
    }
  }

  /** low stayed below v's own number: v finishes and stays on the stack. */
  lemma FinishBlack<V(!new)>(E: Graph<V>, s0: State<V>, s: State<V>, gray: set<V>, v: V, low: nat)
    requires Explored(E, s0, s, gray, v, low)
    requires low < s0.index
    ensures Connected(E, s0, s, gray, v, low)
  {
    hide Reach, Emitted, Crossing, Colors, GrayReaches, ReachesGray;
    ExploredFacts(E, s0, s, gray, v, low);
    BlackColors(E, s0, s, gray, v, low);
    BlackReaches(E, s0, s, gray, v, low);
    BlackExtends(s0, s, v);
  }

  lemma BlackExtends<V(!new)>(s0: State<V>, s: State<V>, v: V)
    requires Extends(Enter(s0, v), s) && v !in s0.idx
    ensures Extends(s0, s)
  {
    assert s0.S <= Enter(s0, v).S;
  }

  lemma BlackColors<V(!new)>(E: Graph<V>, s0: State<V>, s: State<V>, gray: set<V>, v: V, low: nat)
    requires Explored(E, s0, s, gray, v, low)
    ensures Colors(E, s, gray) && GrayReaches(E, s, gray)
  {
    hide Reach, Emitted, Crossing, LowReached, ReachesGray, StackOk, Flat;
    forall x, y | x in s.idx && x !in gray && Succ(E, x, y)
      ensures y in s.idx
    {
      SuccessorsVisited(E, s0, s, gray, v, low, x, y);
    }
  }

  lemma BlackReaches<V(!new)>(E: Graph<V>, s0: State<V>, s: State<V>, gray: set<V>, v: V, low: nat)
    requires Explored(E, s0, s, gray, v, low)
    requires low < s0.index
    ensures ReachesGray(E, s, gray)
  {
    hide Reach, Emitted, Crossing, Colors, GrayReaches, StackOk, GrayBelow, Explored, Inv, ReachesGray;
    ExploredFacts(E, s0, s, gray, v, low);
    var x0 := RootBelow(E, s0, s, gray, v, low);
    StackOfInv(E, s, gray + {v});
    forall y | y in s.S
      ensures GrayBelow(E, s, gray, y)
    {
      var x := GrayWitness(E, s, gray + {v}, y);
      if x == v {
        ReachTransitive(E, y, v, x0);
        GrayBelowIntro(E, s, gray, y, x0);
      } else {
        GrayBelowIntro(E, s, gray, y, x);
      }
    }
    ReachesGrayIntro(E, s, gray);
  }

  lemma StackOfInv<V(!new)>(E: Graph<V>, s: State<V>, gray: set<V>)
    requires Inv(E, s, gray)
    ensures StackOk(s) && forall y :: y in s.S ==> y in s.idx
  {
    hide Reach, Emitted, GrayReaches, ReachesGray;
  }

  lemma ReachesGrayIntro<V(!new)>(E: Graph<V>, s: State<V>, gray: set<V>)
    requires StackOk(s) && forall y :: y in s.S ==> GrayBelow(E, s, gray, y)
    ensures ReachesGray(E, s, gray)
  {
  }

  lemma GrayWitness<V(!new)>(E: Graph<V>, s: State<V>, gray: set<V>, y: V) returns (x: V)
    requires Inv(E, s, gray) && y in s.S
    ensures x in gray && x in s.S && x in s.idx && y in s.idx && s.idx[x] <= s.idx[y] && Reach(E, y, x)
  {
    hide Reach, Emitted, Colors, GrayReaches;
    assert GrayBelow(E, s, gray, y);
    x :| x in gray && x in s.S && s.idx[x] <= s.idx[y] && Reach(E, y, x);
  }

  lemma GrayBelowIntro<V(!new)>(E: Graph<V>, s: State<V>, gray: set<V>, y: V, x: V)
    requires StackOk(s) && y in s.S && x in gray && x in s.S && s.idx[x] <= s.idx[y] && Reach(E, y, x)
    ensures GrayBelow(E, s, gray, y)
  {
    hide Reach, StackOk;
  }

  /** When low is smaller than v's number, v reaches a vertex still under exploration below it. */
  lemma RootBelow<V(!new)>(E: Graph<V>, s0: State<V>, s: State<V>, gray: set<V>, v: V, low: nat) returns (x: V)
    requires Explored(E, s0, s, gray, v, low) && low < s0.index
    ensures x in gray && x in s.S && x in s.idx && s.idx[x] < s0.index && Reach(E, v, x)
  {
    hide Reach, Inv, Crossing;
    ExploredFacts(E, s0, s, gray, v, low);
    var y :| y in s.S && y in s.idx && s.idx[y] == low && Reach(E, v, y);
    x := GrayWitness(E, s, gray + {v}, y);
    ReachTransitive(E, v, y, x);
  }

  /** v is the root of a component: everything from v up leaves the stack. */
  function Pop<V>(s: State<V>, i: nat): State<V>
    requires i <= |s.S|
  {
    s.(S := s.S[..i], sccs := s.sccs + [s.S[i..]])
  }

  lemma PoppedClosed<V(!new)>(E: Graph<V>, s0: State<V>, s: State<V>, gray: set<V>, v: V, low: nat)
    requires Explored(E, s0, s, gray, v, low)
    requires low == s0.index
    ensures Closed(E, Flat(s.sccs) + Elements(Above(s0, s)))
  {
    hide Reach, Crossing, LowReached, ReachesGray, GrayReaches, StackOk, Flat, IsComponent, Explored;
    var c := Above(s0, s);
    ExploredFacts(E, s0, s, gray, v, low);
    forall x, y | x in Flat(s.sccs) + Elements(c) && Succ(E, x, y)
      ensures y in Flat(s.sccs) + Elements(c)
    {
      if x in Flat(s.sccs) {
        EmittedClosed(E, s, gray + {v}, s0, v, low, x, y);
      } else {
        PoppedEdge(E, s0, s, gray, v, low, x, y);
      }
    }
  }

  lemma EmittedClosed<V(!new)>(E: Graph<V>, s: State<V>, gray': set<V>, s0: State<V>, v: V, low: nat, x: V, y: V)
    requires Inv(E, s, gray')
    requires x in Flat(s.sccs) && Succ(E, x, y)
    ensures y in Flat(s.sccs)
  {
    hide Reach, Flat, IsComponent, GrayReaches, ReachesGray, StackOk, Colors;
    assert s.sccs[..|s.sccs|] == s.sccs;
    assert Closed(E, Flat(s.sccs[..|s.sccs|]));
  }

  lemma PoppedEdge<V(!new)>(E: Graph<V>, s0: State<V>, s: State<V>, gray: set<V>, v: V, low: nat, x: V, y: V)
    requires Explored(E, s0, s, gray, v, low)
    requires low == s0.index
    requires x in Above(s0, s) && Succ(E, x, y)
    ensures y in Flat(s.sccs) || y in Above(s0, s)
  {
    hide Reach, Crossing, LowReached, ReachesGray, GrayReaches, StackOk, Flat, Emitted;
    assert x in s.S;
    GrayIsBelow(E, s0, s, gray, v, low, x);
    SuccessorsVisited(E, s0, s, gray, v, low, x, y);
    if y in s.S {
      GrayIsBelow(E, s0, s, gray, v, low, y);
      if y in s0.S {
        NoEdgeBelow(E, s0, s, gray, v, low, x, y);
      }
    }
  }

  lemma PoppedComponent<V(!new)>(E: Graph<V>, s0: State<V>, s: State<V>, gray: set<V>, v: V, low: nat)
    requires Explored(E, s0, s, gray, v, low)
    requires low == s0.index
    ensures IsComponent(E, Above(s0, s))
  {
    hide Reach, Crossing, LowReached, Colors, Flat, Emitted, Closed, StackOk, Explored, Inv;
    var c := Above(s0, s);
    ExploredFacts(E, s0, s, gray, v, low);
    InStackIsVisited(E, s, gray + {v});
    forall y | y in c
      ensures Mutual(E, v, y)
    {
      PoppedMutual(E, s0, s, gray, v, low, y);
    }
    forall x, y | x in c && y in c
      ensures Mutual(E, x, y)
    {
      ReachTransitive(E, x, v, y);
      ReachTransitive(E, y, v, x);
    }
    forall x, z | x in c && Mutual(E, x, z)
      ensures z in c
    {
      PoppedMaximal(E, s0, s, gray, v, low, x, z);
    }
  }

  lemma PoppedMutual<V(!new)>(E: Graph<V>, s0: State<V>, s: State<V>, gray: set<V>, v: V, low: nat, y: V)
    requires Explored(E, s0, s, gray, v, low)
    requires low == s0.index
    requires y in Above(s0, s)
    ensures Mutual(E, v, y)
  {
    hide Crossing, LowReached, Colors, Flat, Emitted, Closed, StackOk, Explored, Reach, Inv;
    ExploredFacts(E, s0, s, gray, v, low);
    assert y in s.S;
    GrayIsBelow(E, s0, s, gray, v, low, y);
    var x := GrayWitness(E, s, gray + {v}, y);
    GrayIsBelow(E, s0, s, gray, v, low, x);
    PoppedClosed(E, s0, s, gray, v, low);
    ReachInClosed(E, y, x, Flat(s.sccs) + Elements(Above(s0, s)));
    NotEmitted(E, s, gray + {v}, x);
    GrayReachesUp(E, s, gray + {v}, v, y);
  }

  lemma GrayReachesUp<V(!new)>(E: Graph<V>, s: State<V>, gray: set<V>, x: V, y: V)
    requires Inv(E, s, gray) && x in gray && x in s.S && y in s.S
    requires x in s.idx && y in s.idx && s.idx[x] <= s.idx[y]
    ensures Reach(E, x, y)
  {
    hide Reach, Emitted, Colors, ReachesGray;
  }

  lemma ReachInClosed<V(!new)>(E: Graph<V>, x: V, y: V, C: set<V>)
    requires x in C && Closed(E, C) && Reach(E, x, y)
    ensures y in C
  {
  }

  lemma NotEmitted<V(!new)>(E: Graph<V>, s: State<V>, gray: set<V>, x: V)
    requires Inv(E, s, gray) && x in s.S
    ensures x !in Flat(s.sccs)
  {
    hide Flat;
  }

  lemma PoppedMaximal<V(!new)>(E: Graph<V>, s0: State<V>, s: State<V>, gray: set<V>, v: V, low: nat, x: V, z: V)
    requires Explored(E, s0, s, gray, v, low)
    requires low == s0.index
    requires x in Above(s0, s) && Mutual(E, x, z)
    ensures z in Above(s0, s)
  {
    hide Crossing, LowReached, Colors, Flat, StackOk, Explored, Reach, IsComponent, Closed, GrayReaches, ReachesGray;
    ExploredFacts(E, s0, s, gray, v, low);
    PoppedClosed(E, s0, s, gray, v, low);
    ReachInClosed(E, x, z, Flat(s.sccs) + Elements(Above(s0, s)));
    assert x in s.S;
    NotEmitted(E, s, gray + {v}, x);
    if z in Flat(s.sccs) {
      assert s.sccs[..|s.sccs|] == s.sccs;
      ReachInClosed(E, z, x, Flat(s.sccs));
    }
  }

  lemma FinishPop<V(!new)>(E: Graph<V>, s0: State<V>, s: State<V>, gray: set<V>, v: V, low: nat)
    requires Explored(E, s0, s, gray, v, low)
    requires low == s0.index
    ensures |s0.S| <= |s.S| && Connected(E, s0, Pop(s, |s0.S|), gray, v, low)
  {
    hide Reach, Crossing, LowReached, Colors, Flat, Emitted, Closed, StackOk, Explored, GrayReaches, ReachesGray, Extends, Pop;
    ExploredFacts(E, s0, s, gray, v, low);
    var s' := Pop(s, |s0.S|);
    PopStack(E, s0, s, gray, v, low);
    PopColors(E, s0, s, gray, v, low);
    PopReaches(E, s0, s, gray, v, low);
    PopEmitted(E, s0, s, gray, v, low);
    PopExtends(E, s0, s, gray, v, low);
  }

  lemma PopStack<V(!new)>(E: Graph<V>, s0: State<V>, s: State<V>, gray: set<V>, v: V, low: nat)
    requires Explored(E, s0, s, gray, v, low)
    ensures |s0.S| <= |s.S|
    ensures var s' := Pop(s, |s0.S|);
            && StackOk(s') && s'.S == s0.S && s'.idx == s.idx && s'.index == s.index
            && s'.sccs == s.sccs + [Above(s0, s)] && v in s'.idx && s'.idx[v] == s0.index && v !in s'.S
  {
    hide Reach, Crossing, LowReached, Emitted, GrayReaches, ReachesGray, Extends, Explored, StackOk, Colors;
    ExploredFacts(E, s0, s, gray, v, low);
    GrayIsBelow(E, s0, s, gray, v, low, v);
    assert v in Above(s0, s);
    PrefixStack(s, |s0.S|);
  }

  lemma PrefixStack<V(!new)>(s: State<V>, i: nat)
    requires StackOk(s) && i <= |s.S|
    ensures StackOk(Pop(s, i))
  {
  }

  lemma PopExtends<V(!new)>(E: Graph<V>, s0: State<V>, s: State<V>, gray: set<V>, v: V, low: nat)
    requires Explored(E, s0, s, gray, v, low)
    ensures |s0.S| <= |s.S| && Extends(s0, Pop(s, |s0.S|))
  {
    hide Reach, Crossing, LowReached, Inv;
    BlackExtends(s0, s, v);
    ExploredFacts(E, s0, s, gray, v, low);
  }

  lemma PopColors<V(!new)>(E: Graph<V>, s0: State<V>, s: State<V>, gray: set<V>, v: V, low: nat)
    requires Explored(E, s0, s, gray, v, low)
    ensures |s0.S| <= |s.S| && Colors(E, Pop(s, |s0.S|), gray)
  {
    hide Reach, Crossing, LowReached, Emitted, GrayReaches, ReachesGray, StackOk, Flat, Explored;
    ExploredFacts(E, s0, s, gray, v, low);
    var s' := Pop(s, |s0.S|);
    var c := Above(s0, s);
    FlatAppend(s.sccs, c);
    assert forall x :: x in s.S <==> x in s0.S || x in c;
    forall x | x in s.S
      ensures !(x in s0.S && x in c)
    {
      GrayIsBelow(E, s0, s, gray, v, low, x);
    }
    forall x, y | x in s.idx && x !in gray && Succ(E, x, y)
      ensures y in s.idx
    {
      SuccessorsVisited(E, s0, s, gray, v, low, x, y);
    }
    forall x | x in gray
      ensures x in s0.S
    {
      GrayIsBelow(E, s0, s, gray, v, low, x);
    }
  }

  lemma PopReaches<V(!new)>(E: Graph<V>, s0: State<V>, s: State<V>, gray: set<V>, v: V, low: nat)
    requires Explored(E, s0, s, gray, v, low)
    ensures |s0.S| <= |s.S| && StackOk(Pop(s, |s0.S|))
    ensures GrayReaches(E, Pop(s, |s0.S|), gray) && ReachesGray(E, Pop(s, |s0.S|), gray)
  {
    hide Reach, Crossing, LowReached, Emitted, Colors, Flat, Explored, StackOk, GrayBelow, Inv;
    ExploredFacts(E, s0, s, gray, v, low);
    PopStack(E, s0, s, gray, v, low);
    StackOfInv(E, s, gray + {v});
    var s' := Pop(s, |s0.S|);
    assert forall y :: y in s0.S ==> y in s.S;
    forall x, y | x in gray && x in s'.S && y in s'.S && s.idx[x] <= s.idx[y]
      ensures Reach(E, x, y)
    {
      GrayReachesUp(E, s, gray + {v}, x, y);
    }
    forall y | y in s'.S
      ensures GrayBelow(E, s', gray, y)
    {
      GrayIsBelow(E, s0, s, gray, v, low, y);
      var x := GrayWitness(E, s, gray + {v}, y);
      GrayIsBelow(E, s0, s, gray, v, low, x);
      GrayBelowIntro(E, s', gray, y, x);
    }
  }

  lemma PopEmitted<V(!new)>(E: Graph<V>, s0: State<V>, s: State<V>, gray: set<V>, v: V, low: nat)
    requires Explored(E, s0, s, gray, v, low) && low == s0.index
    ensures |s0.S| <= |s.S| && Emitted(E, Pop(s, |s0.S|).sccs)
  {
    hide Reach, Crossing, LowReached, Colors, Flat, Explored, StackOk, IsComponent, Closed, GrayReaches, ReachesGray;
    ExploredFacts(E, s0, s, gray, v, low);
    var c := Above(s0, s);
    PoppedComponent(E, s0, s, gray, v, low);
    PoppedClosed(E, s0, s, gray, v, low);
    forall x | x in c
      ensures x !in Flat(s.sccs)
    {
      assert x in s.S;
      NotEmitted(E, s, gray + {v}, x);
    }
    EmitOne(E, s.sccs, c);
  }

  // ----- the result

  /** The components partition the vertices, each is emitted once, after everything it can reach. */
  ghost predicate IsSccPartition<V(!new)>(E: Graph<V>, sccs: seq<seq<V>>) {
    && (forall x :: x in E <==> x in Flat(sccs))
    && Emitted(E, sccs)
  }

  /** Two vertices share a component exactly when each reaches the other. */
  lemma ShareComponent<V(!new)>(E: Graph<V>, sccs: seq<seq<V>>, x: V, y: V)
    requires WellFormed(E) && IsSccPartition(E, sccs) && x in E && y in E
    ensures Mutual(E, x, y) <==> exists k :: 0 <= k < |sccs| && x in sccs[k] && y in sccs[k]
  {
    hide Reach, Flat, Closed;
    FlatMember(sccs, x);
    var k :| 0 <= k < |sccs| && x in sccs[k];
    assert IsComponent(E, sccs[k]);
    if Mutual(E, x, y) {
      assert y in sccs[k];
    }
    if j :| 0 <= j < |sccs| && x in sccs[j] && y in sccs[j] {
      assert IsComponent(E, sccs[j]);
    }
  }

  /** Each vertex is in exactly one component. */
  lemma OneComponent<V(!new)>(E: Graph<V>, sccs: seq<seq<V>>, x: V)
    requires IsSccPartition(E, sccs) && x in E
    ensures exists k :: 0 <= k < |sccs| && x in sccs[k]
    ensures forall j, k :: 0 <= j < |sccs| && 0 <= k < |sccs| && x in sccs[j] && x in sccs[k] ==> j == k
  {
    hide Reach, IsComponent, Closed;
    FlatMember(sccs, x);
    forall j, k | 0 <= j < k < |sccs| && x in sccs[j] && x in sccs[k]
      ensures false
    {
      assert sccs[..k][j] == sccs[j];
      FlatMember(sccs[..k], x);
    }
  }

  /** A component is emitted only after every component it can reach. */
  lemma ReachedEarlier<V(!new)>(E: Graph<V>, sccs: seq<seq<V>>, j: nat, k: nat, x: V, y: V)
    requires IsSccPartition(E, sccs)
    requires j < |sccs| && k < |sccs| && x in sccs[j] && y in sccs[k] && Reach(E, x, y)
    ensures k <= j
  {
    hide Reach, IsComponent, Closed;
    assert sccs[..j + 1][j] == sccs[j];
    FlatMember(sccs[..j + 1], x);
    ReachInClosed(E, x, y, Flat(sccs[..j + 1]));
    if k > j {
      FlatMember(sccs[..j + 1], y);
      var i :| 0 <= i < j + 1 && y in sccs[..j + 1][i];
      assert sccs[..k][i] == sccs[i];
      FlatMember(sccs[..k], y);
    }
  }

  /** A component has a second member exactly when a cycle passes through two distinct vertices of it. */
  lemma CycleComponent<V(!new)>(E: Graph<V>, c: seq<V>, x: V)
    requires IsComponent(E, c) && x in c
    ensures |c| != 1 <==> exists y :: y != x && Mutual(E, x, y)
  {
    hide Reach;
    if |c| != 1 {
      var y := if c[0] == x then c[1] else c[0];
      assert y in c && y != x;
    }
    if y :| y != x && Mutual(E, x, y) {
      assert y in c;
    }
  }

  // ----- steps as the algorithm takes them

  lemma EnterIs<V>(s: State<V>, v: V, s': State<V>)
    requires s' == State(s.idx[v := s.index], s.index + 1, s.S + [v], s.sccs)
    ensures s' == Enter(s, v)
  {
  }

  lemma PopIs<V>(s: State<V>, i: nat)
    requires i <= |s.S|
    ensures Pop(s, i) == State(s.idx, s.index, s.S[..i], s.sccs + [s.S[i..]])
  {
  }

  lemma ChildReady<V(!new)>(E: Graph<V>, s0: State<V>, s: State<V>, gray: set<V>, v: V, k: nat, w: V, low: nat)
    requires Inv(E, s0, gray) && AccessTo(E, gray, v)
    requires Exploring(E, s0, s, gray, v, k, low) && Child(E, v, k, w) && w !in s.idx
    ensures Inv(E, s, gray + {v}) && w in E && AccessTo(E, gray + {v}, w)
    ensures v in s.idx && v in E && forall x :: x in s.idx ==> x in E
  {
    hide Reach, Crossing, LowReached, Emitted, GrayReaches, ReachesGray;
    ExploringFacts(E, s0, s, gray, v, k, low);
    assert Succ(E, v, w);
    ReachEdge(E, v, w);
    forall x | x in gray
      ensures Reach(E, x, w)
    {
      ReachTransitive(E, x, v, w);
    }
  }

  lemma ConnectedVisits<V(!new)>(E: Graph<V>, s: State<V>, s': State<V>, gray: set<V>, v: V, low: nat)
    requires Connected(E, s, s', gray, v, low)
    ensures v in s'.idx && Inv(E, s', gray) && forall x :: x in s.idx ==> x in s'.idx
  {
    hide Inv, LowReached, Crossing;
  }

  lemma AllExplored<V(!new)>(E: Graph<V>, s0: State<V>, s: State<V>, gray: set<V>, v: V, low: nat)
    requires Inv(E, s0, gray) && v !in s0.idx && v in E && Exploring(E, s0, s, gray, v, |E[v]|, low)
    ensures Explored(E, s0, s, gray, v, low)
    ensures v in s.idx && s.idx[v] == s0.index && v in s.S && low <= s0.index
  {
    ExploringFacts(E, s0, s, gray, v, |E[v]|, low);
  }

  lemma PositionOfRoot<V(!new)>(E: Graph<V>, s0: State<V>, s: State<V>, gray: set<V>, v: V, low: nat, i: nat)
    requires Explored(E, s0, s, gray, v, low)
    requires i < |s.S| && s.S[i] == v
    ensures i == |s0.S|
  {
    hide Explored, Inv;
    ExploredFacts(E, s0, s, gray, v, low);
    InStackIsVisited(E, s, gray + {v});
  }

  lemma StartInv<V(!new)>(E: Graph<V>, s: State<V>)
    requires WellFormed(E) && s == State(map[], 0, [], [])
    ensures Inv(E, s, {})
  {
    hide Reach;
    assert Flat<V>([]) == {};
  }

  /** With nothing under exploration the stack is empty, so everything visited has been emitted. */
  lemma SearchEnds<V(!new)>(E: Graph<V>, s: State<V>)
    requires Inv(E, s, {}) && forall x :: x in E ==> x in s.idx
    ensures IsSccPartition(E, s.sccs)
  {
    hide Reach, Emitted, GrayReaches, Flat;
    if s.S != [] {
      var x := GrayWitness(E, s, {}, s.S[0]);
    }
  }
}
