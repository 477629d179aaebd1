/** tarjan and find_cycles from config/check_spidermonkey_style.py. */
module Tarjans {
  import opened TarjanGraph

  class Tarjan<V(==,!new)> {
    const E: Graph<V>
    var vertex_index: map<V, nat>
    var vertex_lowlink: map<V, nat>
    var S: seq<V>
    var all_SCCs: seq<seq<V>>

    constructor (E: Graph<V>)
      ensures this.E == E && vertex_index == map[] && S == [] && all_SCCs == []
    {
      this.E := E;
      vertex_index, vertex_lowlink := map[], map[];
      S, all_SCCs := [], [];
    }

    ghost function At(index: nat): State<V>
      reads this
    {
      State(vertex_index, index, S, all_SCCs)
    }

    /** Explores v; gray names the vertices whose exploration is under way. */
    method StrongConnect(v: V, index: nat, ghost gray: set<V>) returns (next: nat)
      requires Inv(E, At(index), gray) && v in E && v !in vertex_index && AccessTo(E, gray, v)
      modifies this`vertex_index, this`vertex_lowlink, this`S, this`all_SCCs
      ensures v in vertex_lowlink && Connected(E, old(At(index)), At(next), gray, v, vertex_lowlink[v])
      ensures forall x :: x in old(vertex_index) && x in old(vertex_lowlink) ==>
        x in vertex_lowlink && vertex_lowlink[x] == old(vertex_lowlink)[x]
      decreases E.Keys - vertex_index.Keys
    {
      hide Inv, Exploring, Connected, AccessTo, Enter, Extends;
      ghost var s0 := At(index);
      vertex_index := vertex_index[v := index];
      vertex_lowlink := vertex_lowlink[v := index];
      next := index + 1;
      S := S + [v];
      assert At(next) == Enter(s0, v) by { EnterIs(s0, v, At(next)); }
      ExploringStart(E, s0, gray, v);
      for k := 0 to |E[v]|
        invariant v in vertex_lowlink && v in vertex_index
        invariant Exploring(E, s0, At(next), gray, v, k, vertex_lowlink[v])
        invariant forall x :: x in s0.idx ==> x in vertex_index
        invariant forall x :: x in s0.idx && x in old(vertex_lowlink) ==>
          x in vertex_lowlink && vertex_lowlink[x] == old(vertex_lowlink)[x]
      {
        var w := E[v][k];
        ghost var s, low := At(next), vertex_lowlink[v];
        if w !in vertex_index {
          ChildReady(E, s0, s, gray, v, k, w, low);
          next := StrongConnect(w, next, gray + {v});
          ConnectedVisits(E, s, At(next), gray + {v}, w, vertex_lowlink[w]);
          ExploreChild(E, s0, s, At(next), gray, v, k, w, low, vertex_lowlink[w],
                       if vertex_lowlink[w] < low then vertex_lowlink[w] else low);
          vertex_lowlink := vertex_lowlink[v := if vertex_lowlink[w] < vertex_lowlink[v] then vertex_lowlink[w] else vertex_lowlink[v]];
        } else {
          ExploreVisited(E, s0, s, gray, v, k, w, low, if w in S && vertex_index[w] < low then vertex_index[w] else low);
          if w in S {
            vertex_lowlink := vertex_lowlink[v := if vertex_index[w] < vertex_lowlink[v] then vertex_index[w] else vertex_lowlink[v]];
          }
        }
      }
      AllExplored(E, s0, At(next), gray, v, vertex_lowlink[v]);
      if vertex_lowlink[v] == vertex_index[v] {
        var i := IndexOf(S, v);
        PositionOfRoot(E, s0, At(next), gray, v, vertex_lowlink[v], i);
        FinishPop(E, s0, At(next), gray, v, vertex_lowlink[v]);
        PopIs(At(next), i);
        var scc := S[i..];
        S := S[..i];
        all_SCCs := all_SCCs + [scc];
      } else {
        FinishBlack(E, s0, At(next), gray, v, vertex_lowlink[v]);
      }
    }

    /** Explores every vertex that no earlier exploration has reached. */
    method Run(vertices: seq<V>)
      requires WellFormed(E) && forall v :: v in vertices <==> v in E
      requires vertex_index == map[] && S == [] && all_SCCs == []
      modifies this`vertex_index, this`vertex_lowlink, this`S, this`all_SCCs
      ensures IsSccPartition(E, all_SCCs)
    {
      hide Inv, Connected, Extends;
      var index := 0;
      StartInv(E, At(0));
      for i := 0 to |vertices|
        invariant Inv(E, At(index), {})
        invariant forall j :: 0 <= j < i ==> vertices[j] in vertex_index
      {
        if vertices[i] !in vertex_index {
          ghost var s := At(index);
          index := StrongConnect(vertices[i], index, {});
          ConnectedVisits(E, s, At(index), {}, vertices[i], vertex_lowlink[vertices[i]]);
        }
      }
      SearchEnds(E, At(index));
    }
  }

  method IndexOf<V(==)>(S: seq<V>, v: V) returns (i: nat)
    requires v in S
    ensures i < |S| && S[i] == v && v !in S[..i]
  {
    i := 0;
    while S[i] != v
      invariant i < |S| && v !in S[..i]
      invariant v in S[i..]
      decreases |S| - i
    {
      i := i + 1;
    }
  }

  /** find_cycles: the components that are reported, in the order tarjan emits them. */
  method FindCycles<V(==,!new)>(vertices: seq<V>, edges: Graph<V>) returns (reported: seq<seq<V>>)
    requires WellFormed(edges) && forall v :: v in vertices <==> v in edges
    ensures forall c :: c in reported ==> IsComponent(edges, c)
    ensures forall x :: x in edges ==>
      ((exists c :: c in reported && x in c) <==> (exists y :: y != x && Mutual(edges, x, y)))
    ensures reported == [] <==> forall x, y :: x in edges && Mutual(edges, x, y) ==> x == y
  {
    hide IsComponent, Mutual, Emitted, Flat;
    var t := new Tarjan(edges);
    t.Run(vertices);
    var SCCs := t.all_SCCs;
    reported := [];
    for i := 0 to |SCCs|
      invariant forall c :: c in reported <==> exists j :: 0 <= j < i && SCCs[j] == c && |c| != 1
    {
      if |SCCs[i]| != 1 {
        reported := reported + [SCCs[i]];
      }
    }
    ReportedExactly(edges, SCCs, reported);
  }

  lemma ReportedExactly<V(!new)>(E: Graph<V>, sccs: seq<seq<V>>, reported: seq<seq<V>>)
    requires WellFormed(E) && IsSccPartition(E, sccs)
    requires forall c :: c in reported <==> exists j :: 0 <= j < |sccs| && sccs[j] == c && |c| != 1
    ensures forall c :: c in reported ==> IsComponent(E, c)
    ensures forall x :: x in E ==>
      ((exists c :: c in reported && x in c) <==> (exists y :: y != x && Mutual(E, x, y)))
    ensures reported == [] <==> forall x, y :: x in E && Mutual(E, x, y) ==> x == y
  {
    hide IsComponent, Mutual, Flat, Closed;
    forall x | x in E
      ensures (exists c :: c in reported && x in c) <==> (exists y :: y != x && Mutual(E, x, y))
    {
      OneComponent(E, sccs, x);
      var k :| 0 <= k < |sccs| && x in sccs[k];
      CycleComponent(E, sccs[k], x);
    }
    if reported != [] {
      var c := reported[0];
      assert c in reported;
      ReportedHasVertex(E, sccs, c);
      assert c[0] in c;
    }
  }

  lemma ReportedHasVertex<V(!new)>(E: Graph<V>, sccs: seq<seq<V>>, c: seq<V>)
    requires IsSccPartition(E, sccs) && c in sccs
    ensures c != [] && c[0] in E
  {
    hide Mutual, Flat, Closed;
    var k :| 0 <= k < |sccs| && sccs[k] == c;
    assert IsComponent(E, sccs[k]);
    FlatMember(sccs, c[0]);
  }
}
