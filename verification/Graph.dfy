/** The graph object: vertices with their lists of incoming and outgoing edges, changed in place. */
module Graph {
  import opened Basics
  import opened GraphSpec
  import opened Dfs

  datatype Error = Exists | NoEntry

  datatype Outcome = Ok | Fail(error: Error)

  /** The list without `e`, the others in their order. */
  function Without(s: seq<Edge>, e: Edge): (r: seq<Edge>)
    ensures forall x :: x in r <==> x in s && x != e
    ensures |r| <= |s| && (e in s ==> |r| < |s|)
  {
    if s == [] then [] else
      var init := Without(s[..|s| - 1], e);
      assert s == s[..|s| - 1] + [s[|s| - 1]];
      if s[|s| - 1] == e then init else init + [s[|s| - 1]]
  }

  lemma {:induction false} WithoutNoRepeat(s: seq<Edge>, e: Edge)
    requires Distinct(s)
    ensures Distinct(Without(s, e))
  {
    if s != [] {
      WithoutNoRepeat(s[..|s| - 1], e);
      var n := |s| - 1;
      assert forall i :: 0 <= i < n ==> s[..n][i] == s[i] && s[i] != s[n];
      assert s[n] !in s[..n];
    }
  }

  /** `e` stands in the list of `v`. */
  predicate In(m: map<Vertex, seq<Edge>>, v: Vertex, e: Edge) {
    v in m && e in m[v]
  }

  /** Each edge stands once in the list of either end, and joins two vertices of the graph. */
  ghost predicate Consistent(ie: map<Vertex, seq<Edge>>, oe: map<Vertex, seq<Edge>>) {
    && ie.Keys == oe.Keys
    && (forall v, e :: In(ie, v, e) ==> e.vt == v && In(oe, e.vf, e))
    && (forall v, e :: In(oe, v, e) ==> e.vf == v && In(ie, e.vt, e))
    && (forall v :: v in ie ==> Distinct(ie[v]))
    && (forall v :: v in oe ==> Distinct(oe[v]))
  }

  ghost function EdgesOf(ie: map<Vertex, seq<Edge>>): set<Edge> {
    set v, e | v in ie && e in ie[v] :: e
  }

  lemma EdgesOfIs(ie: map<Vertex, seq<Edge>>)
    ensures forall e :: e in EdgesOf(ie) <==> exists v: Vertex :: In(ie, v, e)
  {
    forall e ensures e in EdgesOf(ie) <==> exists v: Vertex :: In(ie, v, e) {
      if v: Vertex :| In(ie, v, e) {
        assert v in ie && e in ie[v];
      }
      if e in EdgesOf(ie) {
        var v :| v in ie && e in ie[v];
        assert In(ie, v, e);
      }
    }
  }

  lemma EdgeIn(ie: map<Vertex, seq<Edge>>, oe: map<Vertex, seq<Edge>>, e: Edge)
    requires Consistent(ie, oe)
    ensures e in EdgesOf(ie) <==> In(ie, e.vt, e)
    ensures e in EdgesOf(ie) <==> In(oe, e.vf, e)
    ensures e in EdgesOf(ie) ==> e.vf in ie && e.vt in ie
  {
    EdgesOfIs(ie);
    if In(ie, e.vt, e) {
      assert In(oe, e.vf, e);
    }
  }

  lemma InUpdate(m: map<Vertex, seq<Edge>>, m2: map<Vertex, seq<Edge>>, w: Vertex, s: seq<Edge>)
    requires m2 == m[w := s]
    ensures forall v, e :: In(m2, v, e) <==> if v == w then e in s else In(m, v, e)
  {
  }

  lemma InSnoc(m: map<Vertex, seq<Edge>>, m2: map<Vertex, seq<Edge>>, w: Vertex, e: Edge)
    requires w in m && m2 == m[w := m[w] + [e]]
    ensures forall v, x :: In(m2, v, x) <==> In(m, v, x) || (v == w && x == e)
  {
    InUpdate(m, m2, w, m[w] + [e]);
  }

  lemma InWithout(m: map<Vertex, seq<Edge>>, m2: map<Vertex, seq<Edge>>, w: Vertex, e: Edge)
    requires w in m && m2 == m[w := Without(m[w], e)]
    ensures forall v, x :: In(m2, v, x) <==> In(m, v, x) && !(v == w && x == e)
  {
    InUpdate(m, m2, w, Without(m[w], e));
  }

  lemma AddedNoRepeat(s: seq<Edge>, e: Edge)
    requires Distinct(s) && e !in s
    ensures Distinct(s + [e])
  {
  }

  lemma SameEdges(ie: map<Vertex, seq<Edge>>, es: set<Edge>)
    requires forall e: Edge :: e in es <==> exists v: Vertex :: In(ie, v, e)
    ensures EdgesOf(ie) == es
  {
    hide In;
    EdgesOfIs(ie);
  }

  lemma DistinctSnoc(vl: seq<Vertex>, v: Vertex)
    requires Distinct(vl) && v !in vl
    ensures Distinct(vl + [v])
  {
  }

  /** A new vertex without edges. */
  lemma VertexAdded(ie: map<Vertex, seq<Edge>>, oe: map<Vertex, seq<Edge>>, v: Vertex)
    requires Consistent(ie, oe) && v !in ie
    ensures Consistent(ie[v := []], oe[v := []]) && EdgesOf(ie[v := []]) == EdgesOf(ie)
  {
    InUpdate(ie, ie[v := []], v, []);
    InUpdate(oe, oe[v := []], v, []);
    EdgesOfIs(ie);
    assert forall u :: !In(ie, v, u) && !In(oe, v, u);
    NoEdgesAdded(ie, v);
  }

  lemma NoEdgesAdded(ie: map<Vertex, seq<Edge>>, v: Vertex)
    requires v !in ie
    ensures EdgesOf(ie[v := []]) == EdgesOf(ie)
  {
    EdgesOfIs(ie);
    EdgesOfIs(ie[v := []]);
    InUpdate(ie, ie[v := []], v, []);
    forall e ensures e in EdgesOf(ie[v := []]) <==> e in EdgesOf(ie) {
      if e in EdgesOf(ie) {
        var u :| In(ie, u, e);
        assert In(ie[v := []], u, e);
      }
    }
  }

  lemma Attached(ie: map<Vertex, seq<Edge>>, oe: map<Vertex, seq<Edge>>, e: Edge)
    requires Consistent(ie, oe) && e.vf in ie && e.vt in ie && e !in EdgesOf(ie)
    ensures Consistent(ie[e.vt := ie[e.vt] + [e]], oe[e.vf := oe[e.vf] + [e]])
    ensures EdgesOf(ie[e.vt := ie[e.vt] + [e]]) == EdgesOf(ie) + {e}
  {
    var ie2, oe2 := ie[e.vt := ie[e.vt] + [e]], oe[e.vf := oe[e.vf] + [e]];
    EdgeIn(ie, oe, e);
    InSnoc(ie, ie2, e.vt, e);
    InSnoc(oe, oe2, e.vf, e);
    AddedNoRepeat(ie[e.vt], e);
    AddedNoRepeat(oe[e.vf], e);
    EdgesOfIs(ie);
    hide In, Distinct, EdgesOf;
    SameEdges(ie2, EdgesOf(ie) + {e});
  }

  lemma Detached(ie: map<Vertex, seq<Edge>>, oe: map<Vertex, seq<Edge>>, e: Edge)
    requires Consistent(ie, oe) && e in EdgesOf(ie)
    ensures e.vt in ie && e.vf in oe
    ensures Consistent(ie[e.vt := Without(ie[e.vt], e)], oe[e.vf := Without(oe[e.vf], e)])
    ensures EdgesOf(ie[e.vt := Without(ie[e.vt], e)]) == EdgesOf(ie) - {e}
  {
    EdgeIn(ie, oe, e);
    var ie2, oe2 := ie[e.vt := Without(ie[e.vt], e)], oe[e.vf := Without(oe[e.vf], e)];
    WithoutNoRepeat(ie[e.vt], e);
    WithoutNoRepeat(oe[e.vf], e);
    InWithout(ie, ie2, e.vt, e);
    InWithout(oe, oe2, e.vf, e);
    EdgesOfIs(ie);
    hide In, Distinct, Without, EdgesOf;
    assert forall v :: In(ie, v, e) ==> v == e.vt;
    SameEdges(ie2, EdgesOf(ie) - {e});
  }

  class Graph {
    var vl: seq<Vertex>
    var ie: map<Vertex, seq<Edge>>
    var oe: map<Vertex, seq<Edge>>

    ghost predicate Valid()
      reads this
    {
      Distinct(vl) && (forall v :: v in vl <==> v in ie) && Consistent(ie, oe)
    }

    ghost function Edges(): set<Edge>
      reads this
    {
      EdgesOf(ie)
    }

    constructor ()
      ensures Valid() && vl == [] && Edges() == {}
    {
      vl, ie, oe := [], map[], map[];
    }

    method AddVertex(v: Vertex)
      requires Valid() && v !in vl
      modifies this
      ensures Valid() && vl == old(vl) + [v] && Edges() == old(Edges())
      ensures ie == old(ie)[v := []] && oe == old(oe)[v := []]
    {
      hide Consistent, EdgesOf, Distinct;
      VertexAdded(ie, oe, v);
      DistinctSnoc(vl, v);
      vl := vl + [v];
      ie := ie[v := []];
      oe := oe[v := []];
    }

    method HasVertex(v: Vertex) returns (has: bool)
      requires Valid()
      ensures has <==> v in ie
    {
      for i := 0 to |vl|
        invariant v !in vl[..i]
      {
        if vl[i] == v {
          return true;
        }
      }
      return false;
    }

    /** Looks through the outgoing edges of `from`. */
    method FindEdge(from: Vertex, to: Vertex) returns (found: bool)
      requires Valid() && from in ie && to in ie
      ensures found <==> Edge(from, to) in Edges()
    {
      for i := 0 to |oe[from]|
        invariant Edge(from, to) !in oe[from][..i]
      {
        if oe[from][i].vt == to {
          assert oe[from][i] in oe[from] && In(oe, from, oe[from][i]);
          EdgeIn(ie, oe, oe[from][i]);
          return true;
        }
      }
      EdgeIn(ie, oe, Edge(from, to));
      return false;
    }

    method AddEdge(from: Vertex, to: Vertex) returns (r: Outcome)
      requires Valid() && from in ie && to in ie
      modifies this
      ensures Valid() && vl == old(vl)
      ensures Edge(from, to) in old(Edges()) ==> r == Fail(Exists) && ie == old(ie) && oe == old(oe)
      ensures Edge(from, to) !in old(Edges()) ==> r == Ok
      ensures Edge(from, to) !in old(Edges()) ==> ie == old(ie)[to := old(ie)[to] + [Edge(from, to)]]
      ensures Edge(from, to) !in old(Edges()) ==> oe == old(oe)[from := old(oe)[from] + [Edge(from, to)]]
      ensures Edges() == old(Edges()) + {Edge(from, to)}
    {
      var has := FindEdge(from, to);
      if has {
        return Fail(Exists);
      }
      var e := Edge(from, to);
      Attached(ie, oe, e);
      hide Consistent, EdgesOf;
      oe := oe[from := oe[from] + [e]];
      ie := ie[to := ie[to] + [e]];
      return Ok;
    }

    /** Takes one edge out of both lists that hold it. */
    method Detach(e: Edge)
      requires Valid() && e in Edges()
      modifies this`ie, this`oe
      ensures Valid() && ie.Keys == old(ie).Keys
      ensures e.vt in old(ie) && e.vf in old(oe)
      ensures ie == old(ie)[e.vt := Without(old(ie)[e.vt], e)]
      ensures oe == old(oe)[e.vf := Without(old(oe)[e.vf], e)]
      ensures Edges() == old(Edges()) - {e}
    {
      Detached(ie, oe, e);
      hide Consistent, EdgesOf;
      oe := oe[e.vf := Without(oe[e.vf], e)];
      ie := ie[e.vt := Without(ie[e.vt], e)];
    }

    method RemoveEdge(from: Vertex, to: Vertex) returns (r: Outcome)
      requires Valid() && from in ie && to in ie
      modifies this
      ensures Valid() && vl == old(vl)
      ensures r == if Edge(from, to) in old(Edges()) then Ok else Fail(NoEntry)
      ensures Edges() == old(Edges()) - {Edge(from, to)}
      ensures Edge(from, to) in old(Edges()) ==> Edge(from, to) in old(ie)[to]
      ensures Edge(from, to) in old(Edges()) ==> ie == old(ie)[to := Without(old(ie)[to], Edge(from, to))]
      ensures Edge(from, to) !in old(Edges()) ==> ie == old(ie) && oe == old(oe)
    {
      var has := FindEdge(from, to);
      if !has {
        return Fail(NoEntry);
      }
      EdgeIn(ie, oe, Edge(from, to));
      Detach(Edge(from, to));
      return Ok;
    }

    method DetachOutgoing(v: Vertex)
      requires Valid() && v in ie
      modifies this`ie, this`oe
      ensures Valid() && ie.Keys == old(ie.Keys) && v in oe && oe[v] == []
      ensures forall e :: e in Edges() <==> e in old(Edges()) && e.vf != v
    {
      assert v in oe;
      hide Consistent, EdgesOf, Distinct;
      while oe[v] != []
        invariant Valid() && ie.Keys == old(ie.Keys) && v in oe
        invariant forall e :: e in Edges() ==> e in old(Edges())
        invariant forall e :: e in old(Edges()) && e.vf != v ==> e in Edges()
        decreases |oe[v]|
      {
        var e := oe[v][0];
        OutEdge(ie, oe, v, e);
        Detach(e);
      }
      NoneOutgoing(ie, oe, v);
    }

    method DetachIncoming(v: Vertex)
      requires Valid() && v in ie && v in oe && oe[v] == []
      modifies this`ie, this`oe
      ensures Valid() && ie.Keys == old(ie.Keys) && v in oe && oe[v] == [] && ie[v] == []
      ensures forall e :: e in Edges() <==> e in old(Edges()) && e.vt != v
    {
      hide Consistent, EdgesOf, Distinct;
      while ie[v] != []
        invariant Valid() && ie.Keys == old(ie.Keys) && v in oe && oe[v] == []
        invariant forall e :: e in Edges() ==> e in old(Edges())
        invariant forall e :: e in old(Edges()) && e.vt != v ==> e in Edges()
        decreases |ie[v]|
      {
        var e := ie[v][0];
        InEdge(ie, oe, v, e);
        Detach(e);
      }
      NoneIncoming(ie, oe, v);
    }

    /** Removes the edges of `v` one by one, then `v` itself. */
    method RemoveVertex(v: Vertex)
      requires Valid() && v in ie
      modifies this
      ensures Valid() && ie.Keys == old(ie.Keys) - {v}
      ensures forall u :: u in vl <==> u in old(vl) && u != v
      ensures |vl| == |old(vl)| - 1
      ensures EdgesWithout(old(Edges()), v, Edges())
    {
      DetachOutgoing(v);
      DetachIncoming(v);
      DropIsolated(v);
    }

    method DropIsolated(v: Vertex)
      requires Valid() && v in ie && v in oe && oe[v] == [] && ie[v] == []
      modifies this
      ensures Valid() && ie.Keys == old(ie.Keys) - {v}
      ensures forall u :: u in vl <==> u in old(vl) && u != v
      ensures |vl| == |old(vl)| - 1
      ensures Edges() == old(Edges())
    {
      Dropped(ie, oe, v);
      hide Consistent, EdgesOf;
      var i :| 0 <= i < |vl| && vl[i] == v;
      TakenOut(vl, i);
      hide Distinct;
      vl := vl[..i] + vl[i + 1..];
      ie := ie - {v};
      oe := oe - {v};
    }

    /**
     * Depth-first search against the edges, from `basev`, on two stacks.  Says whether a cycle can
     * reach `basev`; if none can, `nVisited` counts the vertices that can.
     */
    method HasCycle(basev: Vertex) returns (cyclic: bool, nVisited: nat)
      requires Valid() && basev in ie
      ensures cyclic <==> CycleReaches(Edges(), basev)
      ensures !cyclic ==> nVisited == |Ancestors(ie.Keys, Edges(), basev)|
    {
      EdgesInLists(ie, oe);
      cyclic, nVisited := Search(Edges(), ie, basev);
    }
  }

  /** Pops the search path until its top is the vertex that the edge `e` leads to. */
  method AlignPath(ghost all: set<Edge>, ghost ie: map<Vertex, seq<Edge>>, ghost base: Vertex, ghost before: Stacks,
                   path: seq<Vertex>, e: Edge, ghost es: seq<Edge>)
    returns (vs: seq<Vertex>, ghost d: Stacks)
    requires Good(all, ie, base, before) && before.vs == path
    requires es == Flatten(before.seg) && es != [] && e == es[|es| - 1]
    ensures Good(all, ie, base, d) && d.vs == vs && d.visited == before.visited && Flatten(d.seg) == es
    ensures vs != [] && |d.seg| == |vs| && d.seg[|vs| - 1] != []
    ensures e == d.seg[|vs| - 1][|d.seg[|vs| - 1]| - 1]
  {
    hide Normal, Looped, Flatten;
    vs, d := path, before;
    NextEdgeFitsTop(all, ie, base, d);
    while vs != [] && e.vt != vs[|vs| - 1]
      invariant vs != [] && Good(all, ie, base, d) && d.vs == vs && d.visited == before.visited
      invariant es == Flatten(d.seg)
      decreases |vs|
    {
      NextEdgeFitsTop(all, ie, base, d);
      ghost var n := |vs| - 1;
      PopVertex(all, ie, base, d);
      FlattenDropEmpty(d.seg);
      d := Stacks(d.vs[..n], d.seg[..n], d.visited, if base in d.visited then d.fin else d.fin + [d.vs[n]]);
      vs := vs[..|vs| - 1];
    }
    NextEdgeFitsTop(all, ie, base, d);
  }

  lemma OutEdge(ie: map<Vertex, seq<Edge>>, oe: map<Vertex, seq<Edge>>, v: Vertex, e: Edge)
    requires Consistent(ie, oe) && In(oe, v, e)
    ensures e in EdgesOf(ie) && e.vf == v && |Without(oe[v], e)| < |oe[v]|
  {
    EdgeIn(ie, oe, e);
  }

  lemma InEdge(ie: map<Vertex, seq<Edge>>, oe: map<Vertex, seq<Edge>>, v: Vertex, e: Edge)
    requires Consistent(ie, oe) && In(ie, v, e)
    ensures e in EdgesOf(ie) && e.vt == v && |Without(ie[v], e)| < |ie[v]|
    ensures oe[v] == [] ==> e.vf != v
  {
    EdgeIn(ie, oe, e);
  }

  lemma TakenOut(vl: seq<Vertex>, i: nat)
    requires Distinct(vl) && i < |vl|
    ensures Distinct(vl[..i] + vl[i + 1..])
    ensures forall u :: u in vl[..i] + vl[i + 1..] <==> u in vl && u != vl[i]
  {
    var r := vl[..i] + vl[i + 1..];
    assert forall k :: 0 <= k < |vl| && k != i ==> vl[k] == r[if k < i then k else k - 1];
  }

  lemma NoneOutgoing(ie: map<Vertex, seq<Edge>>, oe: map<Vertex, seq<Edge>>, v: Vertex)
    requires Consistent(ie, oe) && v in oe && oe[v] == []
    ensures forall e :: e in EdgesOf(ie) ==> e.vf != v
  {
    forall e | e in EdgesOf(ie) ensures e.vf != v {
      EdgeIn(ie, oe, e);
    }
  }

  lemma NoneIncoming(ie: map<Vertex, seq<Edge>>, oe: map<Vertex, seq<Edge>>, v: Vertex)
    requires Consistent(ie, oe) && v in ie && ie[v] == []
    ensures forall e :: e in EdgesOf(ie) ==> e.vt != v
  {
    forall e | e in EdgesOf(ie) ensures e.vt != v {
      EdgeIn(ie, oe, e);
    }
  }

  lemma Dropped(ie: map<Vertex, seq<Edge>>, oe: map<Vertex, seq<Edge>>, v: Vertex)
    requires Consistent(ie, oe) && v in ie && ie[v] == [] && oe[v] == []
    ensures Consistent(ie - {v}, oe - {v}) && EdgesOf(ie - {v}) == EdgesOf(ie)
  {
    assert forall u, e :: In(ie - {v}, u, e) <==> In(ie, u, e);
    assert forall u, e :: In(oe - {v}, u, e) <==> In(oe, u, e);
    EdgesOfIs(ie);
    assert forall u :: u in ie - {v} ==> (ie - {v})[u] == ie[u];
    assert forall u :: u in oe - {v} ==> (oe - {v})[u] == oe[u];
    hide In, Distinct;
    SameEdges(ie - {v}, EdgesOf(ie));
  }

  method Search(ghost all: set<Edge>, ie: map<Vertex, seq<Edge>>, basev: Vertex) returns (cyclic: bool, nVisited: nat)
    requires InLists(all, ie) && basev in ie
    ensures cyclic <==> CycleReaches(all, basev)
    ensures !cyclic ==> nVisited == |Ancestors(ie.Keys, all, basev)|
  {
    hide Good, InLists, CycleReaches, Ancestors, Flatten, Skip, Enter;
    var visited: set<Vertex> := {};
    var vs := [basev];
    var es := ie[basev];
    nVisited := 1;
    ghost var d := Stacks([basev], [ie[basev]], {}, []);
    StartSearch(all, ie, basev);
    while es != []
      invariant Good(all, ie, basev, d) && d.vs == vs && d.visited == visited && es == Flatten(d.seg)
      invariant visited <= ie.Keys
      invariant nVisited == |visited| + 1
      decreases |ie.Keys - visited|, |es|
    {
      ghost var was := es;
      var e := es[|es| - 1];
      es := es[..|es| - 1];
      var v := e.vf;
      vs, d := AlignPath(all, ie, basev, d, vs, e, was);
      if v in visited {
        if v in vs {
          CycleFound(all, ie, basev, d, e);
          return true, nVisited;
        }
        SkipEdge(all, ie, basev, d, es, e);
        d := Skip(d);
        continue;
      }
      FollowEdge(all, ie, basev, d, es, e);
      d := Enter(d, ie, v);
      nVisited := nVisited + 1;
      visited := visited + {v};
      vs := vs + [v];
      es := es + ie[v];
    }
    NothingLeft(all, ie, basev, d);
    return false, nVisited;
  }

  lemma EdgesInLists(ie: map<Vertex, seq<Edge>>, oe: map<Vertex, seq<Edge>>)
    requires Consistent(ie, oe)
    ensures InLists(EdgesOf(ie), ie)
  {
    forall e: Edge ensures e in EdgesOf(ie) <==> (e.vt in ie && e in ie[e.vt]) {
      EdgeIn(ie, oe, e);
    }
    forall v, e | v in ie && e in ie[v] ensures e.vt == v && e.vf in ie {
      assert In(ie, v, e);
      EdgeIn(ie, oe, e);
    }
  }

  lemma StartSearch(es: set<Edge>, ie: map<Vertex, seq<Edge>>, base: Vertex)
    requires InLists(es, ie) && base in ie
    ensures Good(es, ie, base, Stacks([base], [ie[base]], {}, []))
    ensures Flatten([ie[base]]) == ie[base]
  {
    FlattenPush([], ie[base]);
    assert [] + [ie[base]] == [ie[base]];
  }

  lemma CycleFound(es: set<Edge>, ie: map<Vertex, seq<Edge>>, base: Vertex, d: Stacks, e: Edge)
    requires Good(es, ie, base, d) && d.seg[|d.vs| - 1] != []
    requires e == d.seg[|d.vs| - 1][|d.seg[|d.vs| - 1]| - 1] && e.vf in d.vs
    ensures CycleReaches(es, base)
  {
    assert e in d.seg[|d.vs| - 1];
    BackEdgeMeansCycle(es, ie, base, d, e);
  }
}
