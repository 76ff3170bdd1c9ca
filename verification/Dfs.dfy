/** What the two stacks of the depth-first search always are, and what that says about cycles. */
module Dfs {
  import opened Basics
  import opened GraphSpec

  /** `ie` lists, for each vertex, the edges of `es` that lead into it. */
  ghost predicate InLists(es: set<Edge>, ie: map<Vertex, seq<Edge>>) {
    && (forall e: Edge :: e in es <==> (e.vt in ie && e in ie[e.vt]))
    && (forall v, e :: v in ie && e in ie[v] ==> e.vt == v && e.vf in ie)
  }

  /**
   * The vertex stack is the current search path; the edge stack is cut into one segment for each
   * of its vertices.  `fin` lists the vertices that are finished, oldest first.
   */
  datatype Stacks = Stacks(vs: seq<Vertex>, seg: seq<seq<Edge>>, visited: set<Vertex>, fin: seq<Vertex>)

  function Flatten(seg: seq<seq<Edge>>): seq<Edge> {
    if seg == [] then [] else Flatten(seg[..|seg| - 1]) + seg[|seg| - 1]
  }

  ghost predicate OnPath(es: set<Edge>, ie: map<Vertex, seq<Edge>>, base: Vertex, d: Stacks) {
    && d.vs != [] && d.vs[0] == base && |d.seg| == |d.vs|
    && d.visited <= ie.Keys && base in ie
    && (forall i :: 0 <= i < |d.vs| - 1 ==> Edge(d.vs[i + 1], d.vs[i]) in es)
    && (forall i, e :: 0 <= i < |d.vs| && e in d.seg[i] ==> e in es && e.vt == d.vs[i])
    && (forall i :: 1 <= i < |d.vs| ==> d.vs[i] in d.visited)
    && (forall i, j :: 1 <= i < j < |d.vs| ==> d.vs[i] != d.vs[j])
  }

  /** Is `v` the vertex that follows position `i` of the path? */
  predicate IsNext(vs: seq<Vertex>, i: nat, v: Vertex) {
    i + 1 < |vs| && vs[i + 1] == v
  }

  /** Edges into the path that are neither waiting nor done lead from the next vertex of the path. */
  ghost predicate Explored(es: set<Edge>, d: Stacks)
    requires |d.seg| == |d.vs|
  {
    forall i, e :: 0 <= i < |d.vs| && e in es && e.vt == d.vs[i] ==>
      e in d.seg[i] || e.vf in d.fin || IsNext(d.vs, i, e.vf)
  }

  /** No way back to the base vertex has been met so far. */
  ghost predicate Normal(es: set<Edge>, base: Vertex, d: Stacks)
    requires |d.seg| == |d.vs|
  {
    && base !in d.visited
    && Explored(es, d)
    && Ordered(es, d.fin) && Distinct(d.fin)
    && (forall i :: 0 <= i < |d.vs| ==> d.vs[i] !in d.fin)
    && (forall u :: u in d.fin ==> u in d.visited)
    && (forall u :: u in d.visited ==> u in d.vs || u in d.fin)
    && (forall u :: u in d.visited ==> Reaches(es, u, base))
  }

  /** An edge that will show the cycle waits in the segment of the base's second entry. */
  ghost predicate Witness(d: Stacks, base: Vertex, k: nat, e: Edge) {
    && 0 < k < |d.vs| == |d.seg| && d.vs[k] == base && e in d.seg[k]
    && e.vf in d.visited && e.vf in d.vs[..k + 1]
  }

  /** The base vertex was met again: there is a cycle, and the search is bound to see it. */
  ghost predicate Looped(es: set<Edge>, base: Vertex, d: Stacks) {
    && base in d.visited && CycleReaches(es, base)
    && exists k: nat, e :: Witness(d, base, k, e)
  }

  ghost predicate Good(es: set<Edge>, ie: map<Vertex, seq<Edge>>, base: Vertex, d: Stacks) {
    OnPath(es, ie, base, d) && if base in d.visited then Looped(es, base, d) else Normal(es, base, d)
  }

  // ----- the flat edge stack

  lemma {:induction false} TopSegment(seg: seq<seq<Edge>>) returns (j: nat)
    requires Flatten(seg) != []
    ensures j < |seg| && seg[j] != [] && forall i :: j < i < |seg| ==> seg[i] == []
    ensures Flatten(seg)[|Flatten(seg)| - 1] == seg[j][|seg[j]| - 1]
    decreases |seg|
  {
    var n := |seg| - 1;
    if seg[n] != [] {
      j := n;
    } else {
      assert Flatten(seg) == Flatten(seg[..n]);
      j := TopSegment(seg[..n]);
    }
  }

  lemma FlattenPush(seg: seq<seq<Edge>>, s: seq<Edge>)
    ensures Flatten(seg + [s]) == Flatten(seg) + s
  {
    assert (seg + [s])[..|seg|] == seg;
  }

  lemma FlattenDropEmpty(seg: seq<seq<Edge>>)
    requires seg != [] && seg[|seg| - 1] == []
    ensures Flatten(seg[..|seg| - 1]) == Flatten(seg)
  {
  }

  lemma FlattenPop(seg: seq<seq<Edge>>)
    requires seg != [] && seg[|seg| - 1] != []
    ensures var n := |seg| - 1; var s := seg[n];
      Flatten(seg[n := s[..|s| - 1]]) + [s[|s| - 1]] == Flatten(seg)
  {
    var n := |seg| - 1;
    var t := seg[n := seg[n][..|seg[n]| - 1]];
    assert t[..n] == seg[..n];
    assert seg[n] == seg[n][..|seg[n]| - 1] + [seg[n][|seg[n]| - 1]];
  }

  /** The next edge leads into the top vertex exactly when the top vertex has edges waiting. */
  lemma NextEdgeFitsTop(es: set<Edge>, ie: map<Vertex, seq<Edge>>, base: Vertex, d: Stacks)
    requires Good(es, ie, base, d) && Flatten(d.seg) != []
    ensures var n := |d.vs| - 1; var e := Flatten(d.seg)[|Flatten(d.seg)| - 1];
      && (e.vt == d.vs[n] <==> d.seg[n] != [])
      && (d.seg[n] != [] ==> e == d.seg[n][|d.seg[n]| - 1])
      && (d.seg[n] == [] ==> n > 0)
  {
    var n := |d.vs| - 1;
    var j := TopSegment(d.seg);
    var e := d.seg[j][|d.seg[j]| - 1];
    assert e in d.seg[j] && e.vt == d.vs[j];
    if d.seg[n] == [] && d.vs[j] == d.vs[n] {
      assert false;
    }
  }

  // ----- one step of each kind

  lemma PopLooped(es: set<Edge>, ie: map<Vertex, seq<Edge>>, base: Vertex, d: Stacks)
    requires OnPath(es, ie, base, d) && Looped(es, base, d) && |d.vs| >= 2 && d.seg[|d.vs| - 1] == []
    ensures var n := |d.vs| - 1; var t := Stacks(d.vs[..n], d.seg[..n], d.visited, d.fin);
      OnPath(es, ie, base, t) && Looped(es, base, t)
  {
    hide CycleReaches;
    var n := |d.vs| - 1;
    var t := Stacks(d.vs[..n], d.seg[..n], d.visited, d.fin);
    var k: nat, e :| Witness(d, base, k, e);
    assert k < n;
    assert d.vs[..n][..k + 1] == d.vs[..k + 1];
    assert Witness(t, base, k, e);
    hide Witness;
  }

  lemma PopVertex(es: set<Edge>, ie: map<Vertex, seq<Edge>>, base: Vertex, d: Stacks)
    requires Good(es, ie, base, d) && |d.vs| >= 2 && d.seg[|d.vs| - 1] == []
    ensures var n := |d.vs| - 1;
      var fin := if base in d.visited then d.fin else d.fin + [d.vs[n]];
      Good(es, ie, base, Stacks(d.vs[..n], d.seg[..n], d.visited, fin))
  {
    hide Normal, Looped;
    if base in d.visited {
      PopLooped(es, ie, base, d);
    } else {
      PopFinished(es, ie, base, d);
    }
  }

  function Popped(d: Stacks): Stacks
    requires d.vs != [] && |d.seg| == |d.vs|
  {
    var n := |d.vs| - 1;
    Stacks(d.vs[..n], d.seg[..n], d.visited, d.fin + [d.vs[n]])
  }

  lemma PopOrdered(es: set<Edge>, ie: map<Vertex, seq<Edge>>, base: Vertex, d: Stacks)
    requires OnPath(es, ie, base, d) && Normal(es, base, d) && |d.vs| >= 2 && d.seg[|d.vs| - 1] == []
    ensures Ordered(es, Popped(d).fin) && Distinct(Popped(d).fin)
  {
    var n, t := |d.vs| - 1, Popped(d);
    forall k, e | 0 <= k < |t.fin| && e in es && e.vt == t.fin[k] ensures e.vf in t.fin[..k] {
      if k < |d.fin| {
        assert e.vt == d.fin[k];
        assert t.fin[..k] == d.fin[..k];
      } else {
        assert e.vt == d.vs[n];
        assert t.fin[..k] == d.fin;
      }
    }
  }

  lemma PopExplored(es: set<Edge>, ie: map<Vertex, seq<Edge>>, base: Vertex, d: Stacks)
    requires OnPath(es, ie, base, d) && Normal(es, base, d) && |d.vs| >= 2 && d.seg[|d.vs| - 1] == []
    ensures Explored(es, Popped(d))
    ensures forall u :: u in d.fin || u == d.vs[|d.vs| - 1] ==> u in Popped(d).fin
  {
    hide Ordered, Distinct;
    var n, t := |d.vs| - 1, Popped(d);
    assert t.fin[|d.fin|] == d.vs[n];
    forall i, e | 0 <= i < n && e in es && e.vt == t.vs[i]
      ensures e in t.seg[i] || e.vf in t.fin || IsNext(t.vs, i, e.vf)
    {
      assert e.vt == d.vs[i];
    }
  }

  lemma PopFinished(es: set<Edge>, ie: map<Vertex, seq<Edge>>, base: Vertex, d: Stacks)
    requires OnPath(es, ie, base, d) && Normal(es, base, d) && |d.vs| >= 2 && d.seg[|d.vs| - 1] == []
    ensures OnPath(es, ie, base, Popped(d)) && Normal(es, base, Popped(d))
  {
    var n, t := |d.vs| - 1, Popped(d);
    PopOrdered(es, ie, base, d);
    PopExplored(es, ie, base, d);
    hide Ordered, Distinct, Explored, Reaches;
    forall u | u in t.visited ensures u in t.vs || u in t.fin {
      if u in d.vs {
        var i :| 0 <= i < |d.vs| && d.vs[i] == u;
        assert i < n ==> t.vs[i] == u;
      }
    }
  }

  /** The stacks after the waiting edge on top is dropped. */
  function Skip(d: Stacks): Stacks
    requires d.vs != [] && |d.seg| == |d.vs| && d.seg[|d.vs| - 1] != []
  {
    var n := |d.vs| - 1;
    d.(seg := d.seg[n := d.seg[n][..|d.seg[n]| - 1]])
  }

  /** The stacks after the waiting edge on top is followed to a new vertex. */
  function Enter(d: Stacks, ie: map<Vertex, seq<Edge>>, v: Vertex): Stacks
    requires d.vs != [] && |d.seg| == |d.vs| && d.seg[|d.vs| - 1] != [] && v in ie
  {
    Stacks(d.vs + [v], Skip(d).seg + [ie[v]], d.visited + {v}, d.fin)
  }

  lemma SkipOnPath(es: set<Edge>, ie: map<Vertex, seq<Edge>>, base: Vertex, d: Stacks)
    requires OnPath(es, ie, base, d) && d.seg[|d.vs| - 1] != []
    ensures OnPath(es, ie, base, Skip(d))
  {
    var n, t := |d.vs| - 1, Skip(d);
    forall i, e | 0 <= i < |t.vs| && e in t.seg[i] ensures e in es && e.vt == t.vs[i] {
      assert e in d.seg[i];
    }
  }

  lemma SkipWitness(d: Stacks, base: Vertex, k: nat, e: Edge)
    requires Witness(d, base, k, e) && d.seg[|d.vs| - 1] != []
    requires d.seg[|d.vs| - 1][|d.seg[|d.vs| - 1]| - 1] != e
    ensures Witness(Skip(d), base, k, e)
  {
    var s := d.seg[|d.vs| - 1];
    assert s == s[..|s| - 1] + [s[|s| - 1]];
  }

  lemma SkipNormal(es: set<Edge>, base: Vertex, d: Stacks)
    requires |d.seg| == |d.vs| && d.vs != [] && d.seg[|d.vs| - 1] != [] && Normal(es, base, d)
    requires d.seg[|d.vs| - 1][|d.seg[|d.vs| - 1]| - 1].vf in d.fin
    ensures Normal(es, base, Skip(d))
  {
    hide Ordered, Distinct, Reaches;
    var n, t := |d.vs| - 1, Skip(d);
    var s := d.seg[n];
    assert s == s[..|s| - 1] + [s[|s| - 1]];
    forall i, e | 0 <= i < |t.vs| && e in es && e.vt == t.vs[i]
      ensures e in t.seg[i] || e.vf in t.fin || IsNext(t.vs, i, e.vf)
    {
      assert e.vt == d.vs[i];
      assert e in d.seg[i] || e.vf in d.fin || IsNext(d.vs, i, e.vf);
    }
  }

  lemma SkipVisited(es: set<Edge>, ie: map<Vertex, seq<Edge>>, base: Vertex, d: Stacks)
    requires Good(es, ie, base, d)
    requires var s := d.seg[|d.vs| - 1];
      s != [] && s[|s| - 1].vf in d.visited && s[|s| - 1].vf !in d.vs
    ensures Good(es, ie, base, Skip(d))
  {
    hide Ordered, Distinct, Reaches, CycleReaches, Explored;
    SkipOnPath(es, ie, base, d);
    if base in d.visited {
      var k: nat, e :| Witness(d, base, k, e);
      SkipWitness(d, base, k, e);
    } else {
      SkipNormal(es, base, d);
    }
  }

  /** Following the search path downwards from position `j`. */
  lemma {:induction false} PathDown(es: set<Edge>, vs: seq<Vertex>, j: nat, i: nat)
    requires i <= j < |vs|
    requires forall k :: 0 <= k < |vs| - 1 ==> Edge(vs[k + 1], vs[k]) in es
    ensures Reaches(es, vs[j], vs[i])
    decreases j
  {
    if i == j {
      ReachesItself(es, vs[j]);
    } else {
      PathDown(es, vs, j - 1, i);
      assert Edge(vs[j - 1 + 1], vs[j - 1]) in es;
      StepReaches(es, vs[j], vs[j - 1], vs[i]);
    }
  }

  lemma CloseCycle(es: set<Edge>, u: Vertex, v: Vertex)
    requires Edge(u, v) in es && Reaches(es, v, u)
    ensures OnCycle(es, u)
  {
    assert Joins(es, [u, v], u, v);
    var q :| Joins(es, q, v, u);
    JoinPaths(es, [u, v], q, u, v, u);
    var p := [u, v] + q[1..];
    assert Joins(es, p, u, u) && |p| >= 2;
  }

  /** A visited vertex on the search path closes a cycle that reaches the base. */
  lemma BackEdgeMeansCycle(es: set<Edge>, ie: map<Vertex, seq<Edge>>, base: Vertex, d: Stacks, e: Edge)
    requires Good(es, ie, base, d) && e in es && e.vt == d.vs[|d.vs| - 1] && e.vf in d.vs
    ensures CycleReaches(es, base)
  {
    if base !in d.visited {
      var i :| 0 <= i < |d.vs| && d.vs[i] == e.vf;
      PathDown(es, d.vs, |d.vs| - 1, i);
      CloseCycle(es, e.vf, e.vt);
      PathDown(es, d.vs, i, 0);
    }
  }

  lemma EnterWitness(d: Stacks, ie: map<Vertex, seq<Edge>>, v: Vertex, base: Vertex, k: nat, e: Edge)
    requires d.vs != [] && |d.seg| == |d.vs| && d.seg[|d.vs| - 1] != [] && v in ie
    requires Witness(d, base, k, e) && d.seg[|d.vs| - 1][|d.seg[|d.vs| - 1]| - 1] != e
    ensures Witness(Enter(d, ie, v), base, k, e)
  {
    SkipWitness(d, base, k, e);
    assert Enter(d, ie, v).vs[..k + 1] == d.vs[..k + 1];
  }

  /** The search comes back to the base: the edge it first left the base by waits there again. */
  lemma EnterBase(es: set<Edge>, ie: map<Vertex, seq<Edge>>, base: Vertex, d: Stacks)
    requires OnPath(es, ie, base, d) && InLists(es, ie)
    requires var s := d.seg[|d.vs| - 1]; s != [] && s[|s| - 1].vf == base && base !in d.visited
    ensures exists k: nat, e :: Witness(Enter(d, ie, base), base, k, e)
  {
    var n, t := |d.vs| - 1, Enter(d, ie, base);
    var last := d.seg[n][|d.seg[n]| - 1];
    assert last in d.seg[n];
    var e := if n == 0 then last else Edge(d.vs[1], d.vs[0]);
    assert e in es && e.vt == base;
    assert e in t.seg[n + 1];
    assert e.vf == if n == 0 then t.vs[0] else t.vs[1];
    assert Witness(t, base, n + 1, e);
  }

  lemma EnterNew(es: set<Edge>, ie: map<Vertex, seq<Edge>>, base: Vertex, d: Stacks)
    requires Good(es, ie, base, d) && InLists(es, ie)
    requires var s := d.seg[|d.vs| - 1]; s != [] && s[|s| - 1].vf !in d.visited
    ensures var s := d.seg[|d.vs| - 1]; var v := s[|s| - 1].vf;
      v in ie && Good(es, ie, base, Enter(d, ie, v))
  {
    hide Normal, CycleReaches;
    var n := |d.vs| - 1;
    var last := d.seg[n][|d.seg[n]| - 1];
    var v := last.vf;
    assert last in d.seg[n];
    EnterOnPath(es, ie, base, d, Enter(d, ie, v));
    if base in d.visited {
      var k: nat, e :| Witness(d, base, k, e);
      EnterWitness(d, ie, v, base, k, e);
    } else if v == base {
      BackEdgeMeansCycle(es, ie, base, d, last);
      EnterBase(es, ie, base, d);
    } else {
      EnterNormal(es, ie, base, d, Enter(d, ie, v));
    }
  }

  lemma EnterOnPath(es: set<Edge>, ie: map<Vertex, seq<Edge>>, base: Vertex, d: Stacks, t: Stacks)
    requires OnPath(es, ie, base, d) && InLists(es, ie)
    requires var n := |d.vs| - 1; var s := d.seg[n];
      && s != [] && s[|s| - 1].vf !in d.visited && s[|s| - 1].vf in ie && s[|s| - 1] in es && s[|s| - 1].vt == d.vs[n]
      && t == Stacks(d.vs + [s[|s| - 1].vf], d.seg[n := s[..|s| - 1]] + [ie[s[|s| - 1].vf]],
                     d.visited + {s[|s| - 1].vf}, d.fin)
    ensures OnPath(es, ie, base, t)
  {
    hide Normal, Reaches, CycleReaches;
    var n := |d.vs| - 1;
    forall i, e | 0 <= i < |t.vs| && e in t.seg[i] ensures e in es && e.vt == t.vs[i] {
      if i < n {
        assert e in d.seg[i];
      } else if i == n {
        assert e in d.seg[n];
      }
    }
  }

  lemma EnterNormal(es: set<Edge>, ie: map<Vertex, seq<Edge>>, base: Vertex, d: Stacks, t: Stacks)
    requires OnPath(es, ie, base, d) && Normal(es, base, d) && InLists(es, ie)
    requires d.seg[|d.vs| - 1] != []
    requires var n := |d.vs| - 1; var s := d.seg[n]; var v := s[|s| - 1].vf;
      && v !in d.visited && v in ie && s[|s| - 1] in es && s[|s| - 1].vt == d.vs[n] && v != base
      && t == Stacks(d.vs + [v], d.seg[n := s[..|s| - 1]] + [ie[v]], d.visited + {v}, d.fin)
    ensures Normal(es, base, t)
  {
    var n := |d.vs| - 1;
    var s := d.seg[n];
    var last := s[|s| - 1];
    assert s == s[..|s| - 1] + [last];
    PathDown(es, d.vs, n, 0);
    StepReaches(es, last.vf, d.vs[n], base);
    forall i, e | 0 <= i < |t.vs| && e in es && e.vt == t.vs[i]
      ensures e in t.seg[i] || e.vf in t.fin || IsNext(t.vs, i, e.vf)
    {
      if i <= n {
        assert e.vt == d.vs[i];
        assert e in d.seg[i] || e.vf in d.fin || IsNext(d.vs, i, e.vf);
      }
    }
    forall u | u in t.visited ensures u in t.vs || u in t.fin {
      if u == last.vf {
        assert t.vs[n + 1] == u;
      } else if u in d.vs {
        var i :| 0 <= i < |d.vs| && d.vs[i] == u;
        assert t.vs[i] == u;
      }
    }
  }

  lemma CancelLast(a: seq<Edge>, b: seq<Edge>, e: Edge)
    requires a + [e] == b + [e]
    ensures a == b
  {
    assert a == (a + [e])[..|a + [e]| - 1];
    assert b == (b + [e])[..|b + [e]| - 1];
  }

  lemma SkipEdge(es: set<Edge>, ie: map<Vertex, seq<Edge>>, base: Vertex, d: Stacks, rest: seq<Edge>, e: Edge)
    requires Good(es, ie, base, d) && Flatten(d.seg) == rest + [e]
    requires d.seg[|d.vs| - 1] != [] && e == d.seg[|d.vs| - 1][|d.seg[|d.vs| - 1]| - 1]
    requires e.vf in d.visited && e.vf !in d.vs
    ensures Good(es, ie, base, Skip(d)) && Flatten(Skip(d).seg) == rest
    ensures Skip(d).vs == d.vs && Skip(d).visited == d.visited
  {
    hide Normal, Looped, Flatten;
    SkipVisited(es, ie, base, d);
    FlattenPop(d.seg);
    CancelLast(Flatten(Skip(d).seg), rest, e);
  }

  lemma FollowEdge(es: set<Edge>, ie: map<Vertex, seq<Edge>>, base: Vertex, d: Stacks, rest: seq<Edge>, e: Edge)
    requires Good(es, ie, base, d) && InLists(es, ie) && Flatten(d.seg) == rest + [e]
    requires d.seg[|d.vs| - 1] != [] && e == d.seg[|d.vs| - 1][|d.seg[|d.vs| - 1]| - 1]
    requires e.vf !in d.visited
    ensures e.vf in ie && Good(es, ie, base, Enter(d, ie, e.vf)) && Flatten(Enter(d, ie, e.vf).seg) == rest + ie[e.vf]
    ensures Enter(d, ie, e.vf).vs == d.vs + [e.vf] && Enter(d, ie, e.vf).visited == d.visited + {e.vf}
  {
    hide Normal, Looped, Flatten;
    EnterNew(es, ie, base, d);
    FlattenPop(d.seg);
    CancelLast(Flatten(Skip(d).seg), rest, e);
    FlattenPush(Skip(d).seg, ie[e.vf]);
  }

  // ----- the end of the search

  /** With no edge waiting, every vertex of the path is finished, innermost first. */
  lemma {:induction false} FinishAll(es: set<Edge>, ie: map<Vertex, seq<Edge>>, base: Vertex, d: Stacks)
    returns (fin: seq<Vertex>)
    requires OnPath(es, ie, base, d) && Normal(es, base, d) && Flatten(d.seg) == []
    ensures Ordered(es, fin) && Distinct(fin) && base in fin
    ensures forall u :: u in fin <==> u == base || u in d.visited
    decreases |d.vs|
  {
    var n := |d.vs| - 1;
    assert d.seg[n] == [];
    FlattenDropEmpty(d.seg);
    if n > 0 {
      PopFinished(es, ie, base, d);
      fin := FinishAll(es, ie, base, Stacks(d.vs[..n], d.seg[..n], d.visited, d.fin + [d.vs[n]]));
    } else {
      fin := d.fin + [base];
      forall k, e | 0 <= k < |fin| && e in es && e.vt == fin[k] ensures e.vf in fin[..k] {
        if k < |d.fin| {
          assert e.vt == d.fin[k];
          assert fin[..k] == d.fin[..k];
        } else {
          assert e.vt == d.vs[0];
          assert fin[..k] == d.fin;
        }
      }
      assert fin[|d.fin|] == base;
    }
  }

  lemma NothingLeft(es: set<Edge>, ie: map<Vertex, seq<Edge>>, base: Vertex, d: Stacks)
    requires Good(es, ie, base, d) && Flatten(d.seg) == [] && InLists(es, ie)
    ensures base !in d.visited && !CycleReaches(es, base)
    ensures Ancestors(ie.Keys, es, base) == d.visited + {base}
  {
    if base in d.visited {
      var k: nat, e :| Witness(d, base, k, e);
      InFlatten(d.seg, k, e);
      assert false;
    }
    var fin := FinishAll(es, ie, base, d);
    OrderedHasNoCycle(es, fin, base);
    ReachesItself(es, base);
  }

  lemma {:induction false} InFlatten(seg: seq<seq<Edge>>, k: nat, e: Edge)
    requires k < |seg| && e in seg[k]
    ensures e in Flatten(seg)
    decreases |seg|
  {
    if k < |seg| - 1 {
      InFlatten(seg[..|seg| - 1], k, e);
    }
  }
}
