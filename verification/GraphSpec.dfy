/** Directed graphs as values: paths, cycles, and when an order of vertices rules cycles out. */
module GraphSpec {

  type Vertex = nat

  datatype Edge = Edge(vf: Vertex, vt: Vertex)

  /** Edges lead from `vf` to `vt`. */
  ghost predicate IsPath(es: set<Edge>, p: seq<Vertex>) {
    p != [] && forall i :: 0 <= i < |p| - 1 ==> Edge(p[i], p[i + 1]) in es
  }

  ghost predicate Joins(es: set<Edge>, p: seq<Vertex>, u: Vertex, v: Vertex) {
    IsPath(es, p) && p[0] == u && p[|p| - 1] == v
  }

  ghost predicate Reaches(es: set<Edge>, u: Vertex, v: Vertex) {
    exists p :: Joins(es, p, u, v)
  }

  ghost predicate OnCycle(es: set<Edge>, u: Vertex) {
    exists p :: Joins(es, p, u, u) && |p| >= 2
  }

  ghost predicate Acyclic(es: set<Edge>) {
    forall u: Vertex :: !OnCycle(es, u)
  }

  /** Some cycle can reach `base`. */
  ghost predicate CycleReaches(es: set<Edge>, base: Vertex) {
    exists u: Vertex :: OnCycle(es, u) && Reaches(es, u, base)
  }

  ghost function Ancestors(vs: set<Vertex>, es: set<Edge>, base: Vertex): set<Vertex> {
    set u | u in vs && Reaches(es, u, base)
  }

  /** `rest` is `es` without the edges at `v`. */
  ghost predicate EdgesWithout(es: set<Edge>, v: Vertex, rest: set<Edge>) {
    forall e :: e in rest <==> e in es && e.vf != v && e.vt != v
  }

  lemma JoinPaths(es: set<Edge>, p: seq<Vertex>, q: seq<Vertex>, u: Vertex, v: Vertex, w: Vertex)
    requires Joins(es, p, u, v) && Joins(es, q, v, w)
    ensures Joins(es, p + q[1..], u, w) && Reaches(es, u, w)
  {
    var r := p + q[1..];
    forall i | 0 <= i < |r| - 1 ensures Edge(r[i], r[i + 1]) in es {
      if i >= |p| - 1 {
        assert Edge(q[i - |p| + 1], q[i - |p| + 2]) in es;
      }
    }
    assert Joins(es, r, u, w);
  }

  lemma ReachesItself(es: set<Edge>, u: Vertex)
    ensures Reaches(es, u, u)
  {
    assert Joins(es, [u], u, u);
  }

  lemma StepReaches(es: set<Edge>, u: Vertex, v: Vertex, w: Vertex)
    requires Edge(u, v) in es && Reaches(es, v, w)
    ensures Reaches(es, u, w)
  {
    assert Joins(es, [u, v], u, v);
    var q :| Joins(es, q, v, w);
    JoinPaths(es, [u, v], q, u, v, w);
  }

  // ----- orders without back edges

  /** Every edge into an element of `fin` comes from an earlier element. */
  ghost predicate Ordered(es: set<Edge>, fin: seq<Vertex>) {
    forall k, e :: 0 <= k < |fin| && e in es && e.vt == fin[k] ==> e.vf in fin[..k]
  }

  lemma {:induction false} PathGoesBack(es: set<Edge>, fin: seq<Vertex>, p: seq<Vertex>, k: nat) returns (i: nat)
    requires Ordered(es, fin) && IsPath(es, p) && k < |fin| && p[|p| - 1] == fin[k]
    ensures i <= k && fin[i] == p[0] && (|p| >= 2 ==> i < k)
    decreases |p|
  {
    if |p| == 1 {
      i := k;
    } else {
      var q := p[..|p| - 1];
      var e := Edge(p[|p| - 2], p[|p| - 1]);
      assert e in es;
      assert e.vf in fin[..k];
      var j :| 0 <= j < k && fin[j] == e.vf;
      i := PathGoesBack(es, fin, q, j);
    }
  }

  lemma OrderedHasNoCycle(es: set<Edge>, fin: seq<Vertex>, base: Vertex)
    requires Ordered(es, fin) && base in fin
    requires forall i, j :: 0 <= i < j < |fin| ==> fin[i] != fin[j]
    ensures !CycleReaches(es, base)
    ensures forall u: Vertex :: Reaches(es, u, base) ==> u in fin
  {
    var k :| 0 <= k < |fin| && fin[k] == base;
    forall u: Vertex | Reaches(es, u, base)
      ensures u in fin && !OnCycle(es, u)
    {
      var p :| Joins(es, p, u, base);
      var i := PathGoesBack(es, fin, p, k);
      if OnCycle(es, u) {
        var c :| Joins(es, c, u, u) && |c| >= 2;
        var j := PathGoesBack(es, fin, c, i);
        assert false;
      }
    }
  }

  // ----- a finite set in which every vertex has a way on contains a cycle

  ghost predicate GoesOn(es: set<Edge>, s: set<Vertex>, v: Vertex) {
    exists w :: w in s && Edge(v, w) in es
  }

  lemma {:induction false} WalkInside(es: set<Edge>, s: set<Vertex>, u: Vertex, n: nat) returns (p: seq<Vertex>)
    requires u in s
    requires forall v :: v in s ==> GoesOn(es, s, v)
    ensures |p| == n + 1 && IsPath(es, p) && p[0] == u && forall i :: 0 <= i < |p| ==> p[i] in s
  {
    if n == 0 {
      p := [u];
    } else {
      var q := WalkInside(es, s, u, n - 1);
      var last := q[|q| - 1];
      assert GoesOn(es, s, last);
      var w :| w in s && Edge(last, w) in es;
      p := q + [w];
      assert p[|p| - 2] == last;
    }
  }

  lemma {:induction false} Repeats(p: seq<Vertex>, s: set<Vertex>) returns (i: nat, j: nat)
    requires |p| > |s| && forall k :: 0 <= k < |p| ==> p[k] in s
    ensures i < j < |p| && p[i] == p[j]
    decreases |p|
  {
    var n := |p| - 1;
    if k :| 0 <= k < n && p[k] == p[n] {
      i, j := k, n;
    } else {
      assert p[n] in s;
      i, j := Repeats(p[..n], s - {p[n]});
    }
  }

  lemma NoWayOutMeansCycle(es: set<Edge>, s: set<Vertex>, u: Vertex)
    requires u in s
    requires forall v :: v in s ==> GoesOn(es, s, v)
    ensures exists v: Vertex :: OnCycle(es, v)
  {
    var p := WalkInside(es, s, u, |s|);
    var i, j := Repeats(p, s);
    var c := p[i..j + 1];
    forall k | 0 <= k < |c| - 1 ensures Edge(c[k], c[k + 1]) in es {
      assert Edge(p[i + k], p[i + k + 1]) in es;
    }
    assert Joins(es, c, p[i], p[i]);
    assert OnCycle(es, p[i]);
  }

  function Backwards(es: set<Edge>): set<Edge> {
    set e | e in es :: Edge(e.vt, e.vf)
  }

  lemma BackwardsCycle(es: set<Edge>, u: Vertex)
    requires OnCycle(Backwards(es), u)
    ensures OnCycle(es, u)
  {
    var p :| Joins(Backwards(es), p, u, u) && |p| >= 2;
    var n := |p|;
    var q := seq(n, i requires 0 <= i < n => p[n - 1 - i]);
    forall i | 0 <= i < n - 1 ensures Edge(q[i], q[i + 1]) in es {
      assert Edge(p[n - 2 - i], p[n - 2 - i + 1]) in Backwards(es);
    }
    assert Joins(es, q, u, u);
  }

  ghost predicate NoneFrom(es: set<Edge>, s: set<Vertex>, v: Vertex) {
    forall u :: u in s ==> Edge(u, v) !in es
  }

  lemma GoesBack(es: set<Edge>, s: set<Vertex>, w: Vertex)
    requires !NoneFrom(es, s, w)
    ensures GoesOn(Backwards(es), s, w)
  {
    var u :| u in s && Edge(u, w) in es;
    assert Edge(w, u) in Backwards(es);
  }

  /** In an acyclic graph every non-empty set holds a vertex with no edge from inside the set. */
  lemma HasSource(es: set<Edge>, s: set<Vertex>) returns (v: Vertex)
    requires Acyclic(es) && s != {}
    ensures v in s && NoneFrom(es, s, v)
  {
    hide NoneFrom, GoesOn, Backwards;
    v :| v in s;
    if forall w :: w in s ==> !NoneFrom(es, s, w) {
      forall w | w in s ensures GoesOn(Backwards(es), s, w) {
        GoesBack(es, s, w);
      }
      NoWayOutMeansCycle(Backwards(es), s, v);
      var c: Vertex :| OnCycle(Backwards(es), c);
      BackwardsCycle(es, c);
    } else {
      v :| v in s && NoneFrom(es, s, v);
    }
  }
}
