/** The dependency manager: checks the task graph, starts its leaves, and releases tasks as others finish. */
module TaskDepMan {
  import opened Basics
  import opened GraphSpec
  import opened Dfs
  import opened Graph
  import S = Scheduler

  datatype State = Ready | Started | Finished

  datatype Code = Fine | Empty | CircularDep | MultiRoot | IsolatedTask | NotPermitted | EdgeExists | NoEdge

  /** A vertex with no outgoing edge. */
  predicate IsRoot(oe: map<Vertex, seq<Edge>>, v: Vertex) {
    v in oe && oe[v] == []
  }

  lemma {:induction false} ListIsSet(s: seq<Edge>, es: set<Edge>)
    requires Distinct(s) && forall e :: e in s <==> e in es
    ensures |s| == |es|
  {
    if s == [] {
      assert es == {};
    } else {
      var n := |s| - 1;
      assert forall i :: 0 <= i < n ==> s[..n][i] == s[i] && s[i] != s[n];
      assert forall e :: e in s[..n] <==> e in es - {s[n]};
      ListIsSet(s[..n], es - {s[n]});
    }
  }

  /** The length of a list of incoming edges is the number of prerequisites. */
  lemma InDegree(ie: map<Vertex, seq<Edge>>, oe: map<Vertex, seq<Edge>>, v: Vertex)
    requires Consistent(ie, oe) && v in ie
    ensures |ie[v]| == |S.EdgesInto(EdgesOf(ie), v)|
    ensures ie[v] == [] <==> S.EdgesInto(EdgesOf(ie), v) == {}
  {
    forall e ensures e in ie[v] <==> e in S.EdgesInto(EdgesOf(ie), v) {
      EdgeIn(ie, oe, e);
      if e in ie[v] {
        assert In(ie, v, e);
      }
    }
    ListIsSet(ie[v], S.EdgesInto(EdgesOf(ie), v));
  }

  lemma {:induction false} VerticesAreSet(vl: seq<Vertex>, vs: set<Vertex>)
    requires Distinct(vl) && forall v :: v in vl <==> v in vs
    ensures |vl| == |vs|
  {
    if vl == [] {
      assert vs == {};
    } else {
      var n := |vl| - 1;
      assert forall i :: 0 <= i < n ==> vl[..n][i] == vl[i] && vl[i] != vl[n];
      assert forall v :: v in vl[..n] <==> v in vs - {vl[n]};
      VerticesAreSet(vl[..n], vs - {vl[n]});
    }
  }

  // ----- what the check of the graph means

  ghost predicate SingleRoot(oe: map<Vertex, seq<Edge>>, root: Vertex) {
    IsRoot(oe, root) && forall v :: IsRoot(oe, v) ==> v == root
  }

  lemma SameRoot(oe: map<Vertex, seq<Edge>>, a: Vertex, b: Vertex)
    requires SingleRoot(oe, a) && SingleRoot(oe, b)
    ensures a == b
  {
  }

  /** With one root, either every task has a path to it or some cycle never gets there. */
  lemma AllReachOrCycle(ie: map<Vertex, seq<Edge>>, oe: map<Vertex, seq<Edge>>, root: Vertex)
    requires Consistent(ie, oe) && SingleRoot(oe, root) && Acyclic(EdgesOf(ie))
    ensures Ancestors(ie.Keys, EdgesOf(ie), root) == ie.Keys
  {
    var es := EdgesOf(ie);
    var rest := ie.Keys - Ancestors(ie.Keys, es, root);
    ReachesItself(es, root);
    if v :| v in rest {
      forall u | u in rest ensures GoesOn(es, rest, u) {
        assert u != root && !IsRoot(oe, u);
        var e := oe[u][0];
        assert In(oe, u, e);
        EdgeIn(ie, oe, e);
        if Reaches(es, e.vt, root) {
          StepReaches(es, u, e.vt, root);
        }
        assert e.vt in rest && Edge(u, e.vt) in es;
      }
      NoWayOutMeansCycle(es, rest, v);
      assert false;
    }
    assert rest == {};
    forall u | u in ie.Keys ensures u in Ancestors(ie.Keys, es, root) {
      assert u !in rest;
    }
  }

  lemma InAncestors(vs: set<Vertex>, es: set<Edge>, root: Vertex, u: Vertex)
    requires Ancestors(vs, es, root) == vs && u in vs
    ensures Reaches(es, u, root)
  {
    assert u in Ancestors(vs, es, root);
  }

  lemma CyclesReachRoot(ie: map<Vertex, seq<Edge>>, oe: map<Vertex, seq<Edge>>, root: Vertex)
    requires Consistent(ie, oe) && root in ie && Ancestors(ie.Keys, EdgesOf(ie), root) == ie.Keys
    requires !CycleReaches(EdgesOf(ie), root)
    ensures Acyclic(EdgesOf(ie))
  {
    var es := EdgesOf(ie);
    forall u: Vertex ensures !OnCycle(es, u) {
      if OnCycle(es, u) {
        var p :| Joins(es, p, u, u) && |p| >= 2;
        assert Edge(p[0], p[0 + 1]) in es;
        EdgeIn(ie, oe, Edge(p[0], p[1]));
        InAncestors(ie.Keys, es, root, u);
      }
    }
  }

  // ----- what removing a task does to the counters

  /** Nothing but `v` itself waits for `v`. */
  ghost predicate NoDependents(es: set<Edge>, v: Vertex) {
    forall w :: Edge(v, w) in es ==> w == v
  }

  /** Whoever waits for `v` waits for nothing else. */
  ghost predicate OnlyPrerequisite(es: set<Edge>, v: Vertex) {
    forall w :: Edge(v, w) in es && w != v ==> S.EdgesInto(es, w) == {Edge(v, w)}
  }

  lemma IntoWithout(es: set<Edge>, v: Vertex, rest: set<Edge>, w: Vertex)
    requires EdgesWithout(es, v, rest) && w != v
    ensures S.EdgesInto(rest, w) == S.EdgesInto(es, w) - {Edge(v, w)}
    ensures |S.EdgesInto(rest, w)| == |S.EdgesInto(es, w)| - if Edge(v, w) in es then 1 else 0
  {
    assert S.EdgesInto(rest, w) == S.EdgesInto(es, w) - {Edge(v, w)};
    if Edge(v, w) in es {
      assert Edge(v, w) in S.EdgesInto(es, w);
    }
  }

  /** No counter is lower than the number of prerequisites. */
  ghost predicate Enough(ie: map<Vertex, seq<Edge>>, count: map<Vertex, int>) {
    forall v :: v in ie ==> v in count && count[v] >= |ie[v]|
  }

  lemma RemovalAndCounters(vs: set<Vertex>, es: set<Edge>, v: Vertex, rest: set<Edge>, count: map<Vertex, int>)
    requires EdgesWithout(es, v, rest) && vs <= count.Keys
    requires forall e :: e in es ==> e.vt in vs
    requires S.ExactOn(vs, es, count)
    ensures S.ExactOn(vs - {v}, rest, count - {v}) <==> NoDependents(es, v)
    ensures S.CountsFit(vs - {v}, rest, count - {v}) <==> OnlyPrerequisite(es, v)
  {
    forall w | w in vs - {v}
      ensures S.EdgesInto(rest, w) == S.EdgesInto(es, w) - {Edge(v, w)}
      ensures count[w] == |S.EdgesInto(rest, w)| <==> Edge(v, w) !in es
    {
      IntoWithout(es, v, rest, w);
    }
    forall w | Edge(v, w) in es && w != v
      ensures w in vs - {v} && Edge(v, w) in S.EdgesInto(es, w)
      ensures S.EdgesInto(rest, w) == {} <==> S.EdgesInto(es, w) == {Edge(v, w)}
    {
      assert Edge(v, w) in S.EdgesInto(es, w);
    }
  }

  /**
   * What removing `v` does.  The counters of the tasks that waited for it are left as they were, so exact
   * counters stay exact only if nothing waited for it, and fit the plan only if it was all that was waited for.
   */
  ghost predicate TaskRemoved(ie: map<Vertex, seq<Edge>>, count: map<Vertex, int>, v: Vertex,
                              ie2: map<Vertex, seq<Edge>>, count2: map<Vertex, int>) {
    && ie2.Keys == ie.Keys - {v} && count2 == count - {v} && EdgesWithout(EdgesOf(ie), v, EdgesOf(ie2))
    && (S.ExactOn(ie.Keys, EdgesOf(ie), count) ==>
        && (S.ExactOn(ie2.Keys, EdgesOf(ie2), count2) <==> NoDependents(EdgesOf(ie), v))
        && (S.CountsFit(ie2.Keys, EdgesOf(ie2), count2) <==> OnlyPrerequisite(EdgesOf(ie), v)))
  }

  lemma CountersAfterRemoval(ie: map<Vertex, seq<Edge>>, oe: map<Vertex, seq<Edge>>, v: Vertex,
                             ie2: map<Vertex, seq<Edge>>, oe2: map<Vertex, seq<Edge>>, count: map<Vertex, int>)
    requires Consistent(ie, oe) && Consistent(ie2, oe2) && ie2.Keys == ie.Keys - {v} && count.Keys == ie.Keys
    requires EdgesWithout(EdgesOf(ie), v, EdgesOf(ie2))
    ensures Enough(ie, count) ==> Enough(ie2, count - {v})
    ensures TaskRemoved(ie, count, v, ie2, count - {v})
  {
    RootEdges(ie, oe);
    hide S.ExactOn, S.CountsFit, S.EdgesInto, EdgesOf, NoDependents, OnlyPrerequisite;
    forall w | w in ie2 ensures |ie[w]| >= |ie2[w]| {
      InDegree(ie, oe, w);
      InDegree(ie2, oe2, w);
      IntoWithout(EdgesOf(ie), v, EdgesOf(ie2), w);
    }
    if S.ExactOn(ie.Keys, EdgesOf(ie), count) {
      RemovalAndCounters(ie.Keys, EdgesOf(ie), v, EdgesOf(ie2), count);
    }
  }

  lemma RootEdges(ie: map<Vertex, seq<Edge>>, oe: map<Vertex, seq<Edge>>)
    requires Consistent(ie, oe)
    ensures forall e :: e in EdgesOf(ie) ==> e.vt in ie && e.vf in ie
  {
    forall e | e in EdgesOf(ie) ensures e.vt in ie && e.vf in ie {
      EdgeIn(ie, oe, e);
    }
  }

  lemma IntoAdded(es: set<Edge>, e: Edge, v: Vertex)
    requires e !in es
    ensures |S.EdgesInto(es + {e}, v)| == |S.EdgesInto(es, v)| + if v == e.vt then 1 else 0
  {
    assert S.EdgesInto(es + {e}, v) == if v == e.vt then S.EdgesInto(es, v) + {e} else S.EdgesInto(es, v);
  }

  lemma Incremented(vs: set<Vertex>, es: set<Edge>, e: Edge, count: map<Vertex, int>)
    requires e.vt in vs && e.vt in count && e !in es && S.ExactOn(vs, es, count)
    ensures S.ExactOn(vs, es + {e}, count[e.vt := count[e.vt] + 1])
  {
    hide S.EdgesInto;
    forall v | v in vs ensures |S.EdgesInto(es + {e}, v)| == |S.EdgesInto(es, v)| + if v == e.vt then 1 else 0 {
      IntoAdded(es, e, v);
    }
  }

  lemma Decremented(vs: set<Vertex>, es: set<Edge>, e: Edge, count: map<Vertex, int>)
    requires e.vt in vs && e.vt in count && e in es && S.ExactOn(vs, es, count)
    ensures S.ExactOn(vs, es - {e}, count[e.vt := count[e.vt] - 1])
  {
    hide S.EdgesInto;
    assert es - {e} + {e} == es;
    forall v | v in vs ensures |S.EdgesInto(es - {e}, v)| == |S.EdgesInto(es, v)| - if v == e.vt then 1 else 0 {
      IntoAdded(es - {e}, e, v);
    }
  }

  lemma EnoughMoved(ie: map<Vertex, seq<Edge>>, count: map<Vertex, int>, v: Vertex, l: seq<Edge>, n: int)
    requires v in ie && v in count && Enough(ie, count) && n >= |l|
    ensures Enough(ie[v := l], count[v := n])
  {
  }

  lemma AtLeast(ie: map<Vertex, seq<Edge>>, count: map<Vertex, int>, v: Vertex)
    requires v in ie && Enough(ie, count)
    ensures v in count && count[v] >= |ie[v]|
  {
  }

  class TaskDepMan {
    const g: Graph
    var count: map<Vertex, int>
    var unhandled: int
    var state: State
    /** What was injected, heard of as finished, and reported so far. */
    var log: seq<S.Event>

    ghost predicate Valid()
      reads this, g
    {
      && g.Valid() && count.Keys == g.ie.Keys && unhandled == |g.vl|
      && (state == Ready ==> log == [] && Enough(g.ie, count))
    }

    ghost function Abs(): S.Sched
      reads this, g
    {
      S.Sched(g.ie.Keys, g.Edges(), count, unhandled, log, state == Finished)
    }

    constructor ()
      ensures Valid() && state == Ready && g.vl == [] && g.Edges() == {} && count == map[] && fresh(g)
    {
      g := new Graph();
      count, unhandled, state, log := map[], 0, Ready, [];
    }

    /** Every counter is exact. */
    ghost predicate Exact()
      requires Valid()
      reads this, g
    {
      S.ExactOn(g.ie.Keys, g.Edges(), count)
    }

    method AddTask(v: Vertex) returns (r: Code)
      requires Valid() && v !in g.vl
      modifies this, g
      ensures Valid() && state == old(state)
      ensures old(state) != Ready ==> r == NotPermitted && Abs() == old(Abs())
      ensures old(state) == Ready ==> r == Fine && g.vl == old(g.vl) + [v] && g.Edges() == old(g.Edges())
      ensures old(state) == Ready ==> count == old(count)[v := 0]
      ensures old(state) == Ready && old(Exact()) ==> Exact()
    {
      if state != Ready {
        return NotPermitted;
      }
      count := count[v := 0];
      g.AddVertex(v);
      unhandled := unhandled + 1;
      InDegree(g.ie, g.oe, v);
      return Fine;
    }

    method RemoveTask(v: Vertex) returns (r: Code)
      requires Valid() && v in g.ie
      modifies this, g
      ensures Valid() && state == old(state)
      ensures old(state) != Ready ==> r == NotPermitted && Abs() == old(Abs())
      ensures old(state) == Ready ==> r == Fine && TaskRemoved(old(g.ie), old(count), v, g.ie, count)
    {
      hide Consistent, EdgesOf, Distinct, EdgesWithout, Enough, TaskRemoved;
      if state != Ready {
        return NotPermitted;
      }
      ghost var ie, oe := g.ie, g.oe;
      g.RemoveVertex(v);
      count := count - {v};
      unhandled := unhandled - 1;
      CountersAfterRemoval(ie, oe, v, g.ie, g.oe, old(count));
      return Fine;
    }

    /** `target` is to run after `prereq`. */
    method AddDependency(target: Vertex, prereq: Vertex) returns (r: Code)
      requires Valid() && target in g.ie && prereq in g.ie
      modifies this, g
      ensures Valid() && state == old(state) && g.vl == old(g.vl)
      ensures old(state) != Ready ==> r == NotPermitted && Abs() == old(Abs())
      ensures old(state) == Ready && Edge(prereq, target) in old(g.Edges()) ==> r == EdgeExists && Abs() == old(Abs())
      ensures old(state) == Ready && Edge(prereq, target) !in old(g.Edges()) ==>
        && r == Fine && g.Edges() == old(g.Edges()) + {Edge(prereq, target)}
        && count == old(count)[target := old(count)[target] + 1]
      ensures old(Exact()) ==> Exact()
    {
      hide Consistent, EdgesOf, Distinct, S.EdgesInto, S.ExactOn, Enough;
      if state != Ready {
        return NotPermitted;
      }
      var added := g.AddEdge(prereq, target);
      if added != Outcome.Ok {
        return EdgeExists;
      }
      CountUp(old(g.ie), old(g.Edges()), Edge(prereq, target));
      return Fine;
    }

    method CountUp(ghost ie: map<Vertex, seq<Edge>>, ghost es: set<Edge>, e: Edge)
      requires g.Valid() && state == Ready && log == [] && unhandled == |g.vl| && count.Keys == ie.Keys && e.vt in ie
      requires e !in es && Enough(ie, count) && g.ie == ie[e.vt := ie[e.vt] + [e]] && g.Edges() == es + {e}
      modifies this`count
      ensures Valid() && count == old(count)[e.vt := old(count)[e.vt] + 1]
      ensures S.ExactOn(ie.Keys, es, old(count)) ==> Exact()
    {
      hide Consistent, EdgesOf, Distinct, S.EdgesInto, S.ExactOn, Enough;
      assert g.ie.Keys == ie.Keys;
      AtLeast(ie, count, e.vt);
      EnoughMoved(ie, count, e.vt, ie[e.vt] + [e], count[e.vt] + 1);
      if S.ExactOn(ie.Keys, es, count) {
        Incremented(ie.Keys, es, e, count);
      }
      count := count[e.vt := count[e.vt] + 1];
    }

    method RemoveDependency(target: Vertex, prereq: Vertex) returns (r: Code)
      requires Valid() && target in g.ie && prereq in g.ie
      modifies this, g
      ensures Valid() && state == old(state) && g.vl == old(g.vl)
      ensures old(state) != Ready ==> r == NotPermitted && Abs() == old(Abs())
      ensures old(state) == Ready && Edge(prereq, target) !in old(g.Edges()) ==> r == NoEdge && Abs() == old(Abs())
      ensures old(state) == Ready && Edge(prereq, target) in old(g.Edges()) ==>
        && r == Fine && g.Edges() == old(g.Edges()) - {Edge(prereq, target)}
        && count == old(count)[target := old(count)[target] - 1]
      ensures old(Exact()) ==> Exact()
    {
      hide Consistent, EdgesOf, Distinct, S.EdgesInto, S.ExactOn, Enough;
      if state != Ready {
        return NotPermitted;
      }
      var removed := g.RemoveEdge(prereq, target);
      if removed != Outcome.Ok {
        return NoEdge;
      }
      CountDown(old(g.ie), old(g.Edges()), Edge(prereq, target));
      return Fine;
    }

    method CountDown(ghost ie: map<Vertex, seq<Edge>>, ghost es: set<Edge>, e: Edge)
      requires g.Valid() && state == Ready && log == [] && unhandled == |g.vl| && count.Keys == ie.Keys && e.vt in ie
      requires e in es && e in ie[e.vt] && Enough(ie, count)
      requires g.ie == ie[e.vt := Without(ie[e.vt], e)] && g.Edges() == es - {e}
      modifies this`count
      ensures Valid() && count == old(count)[e.vt := old(count)[e.vt] - 1]
      ensures S.ExactOn(ie.Keys, es, old(count)) ==> Exact()
    {
      hide Consistent, EdgesOf, Distinct, S.EdgesInto, S.ExactOn, Enough;
      assert g.ie.Keys == ie.Keys;
      AtLeast(ie, count, e.vt);
      EnoughMoved(ie, count, e.vt, Without(ie[e.vt], e), count[e.vt] - 1);
      if S.ExactOn(ie.Keys, es, count) {
        Decremented(ie.Keys, es, e, count);
      }
      count := count[e.vt := count[e.vt] - 1];
    }

    /** Looks for the one task nothing depends on. */
    method FindRoot() returns (several: bool, root: Vertex)
      requires Valid() && exists v :: IsRoot(g.oe, v)
      ensures !several ==> SingleRoot(g.oe, root)
      ensures several ==> forall r :: !SingleRoot(g.oe, r)
    {
      hide Consistent;
      var found := false;
      root := 0;
      for i := 0 to |g.vl|
        invariant found ==> IsRoot(g.oe, root)
        invariant forall v :: v in g.vl[..i] && IsRoot(g.oe, v) ==> found && v == root
        invariant found ==> root in g.vl[..i]
      {
        var v := g.vl[i];
        assert v in g.vl;
        SameKeys(g.ie, g.oe);
        if |g.oe[v]| == 0 {
          assert IsRoot(g.oe, v);
          if found {
            assert root != v;
            return true, root;
          }
          found, root := true, v;
        }
      }
      SameKeys(g.ie, g.oe);
      assert forall v :: IsRoot(g.oe, v) ==> v in g.vl[..|g.vl|];
      return false, root;
    }

    /** Is the graph ready to run: acyclic, with a single root that everything leads to? */
    method Verify() returns (code: Code, root: Vertex)
      requires Valid() && (g.vl != [] ==> exists v :: IsRoot(g.oe, v))
      ensures state != Ready ==> code == NotPermitted
      ensures state == Ready && g.vl == [] ==> code == Empty
      ensures state == Ready && g.vl != [] ==>
        (code == MultiRoot <==> forall r :: !SingleRoot(g.oe, r)) && (code != MultiRoot ==> SingleRoot(g.oe, root))
      ensures state == Ready && g.vl != [] && code != MultiRoot ==>
        && (code == CircularDep <==> CycleReaches(g.Edges(), root))
        && (code == Fine <==> Acyclic(g.Edges()))
        && (code == IsolatedTask <==> !Acyclic(g.Edges()) && !CycleReaches(g.Edges(), root))
      ensures code == Fine ==> state == Ready && S.Plan(g.ie.Keys, g.Edges(), root)
    {
      root := 0;
      if state != Ready {
        return NotPermitted, root;
      }
      hide Consistent, EdgesOf, Distinct, Acyclic, CycleReaches, Ancestors, S.Plan, SingleRoot;
      var nVertices := |g.vl|;
      if nVertices == 0 {
        return Empty, root;
      }
      var several;
      several, root := FindRoot();
      if several {
        return MultiRoot, root;
      }
      RootIsVertex(g.ie, g.oe, root);
      var cyclic, n := g.HasCycle(root);
      VerticesAreSet(g.vl, g.ie.Keys);
      VerdictIsRight(g.ie, g.oe, root, n);
      if cyclic {
        return CircularDep, root;
      } else if n < nVertices {
        return IsolatedTask, root;
      }
      return Fine, root;
    }

    /** Injects every task that waits for nothing. */
    method InjectLeaves()
      requires Valid() && log == [] && state != Ready
      modifies this`log
      ensures Valid() && S.Injects(log, S.Leaves(g.ie.Keys, g.Edges()))
    {
      hide Consistent, Distinct, Injected, S.Leaves, S.Injects, EdgesOf;
      NoneInjected(g.ie, g.vl, log);
      for i := 0 to |g.vl|
        invariant log == [] || state != Ready
        invariant Injected(g.ie, g.vl[..i], log)
      {
        var v := g.vl[i];
        assert v in g.vl;
        OneMoreInjected(g.ie, g.vl, i, log);
        if |g.ie[v]| == 0 {
          log := log + [S.Inject(v)];
        }
      }
      assert g.vl[..|g.vl|] == g.vl;
      LeavesAre(g.ie, g.oe);
      AllInjected(g.ie, g.vl, log, S.Leaves(g.ie.Keys, g.Edges()));
    }

    method Start() returns (code: Code)
      requires Valid() && (g.vl != [] ==> exists v :: IsRoot(g.oe, v))
      modifies this
      ensures Valid() && g.vl == old(g.vl) && count == old(count)
      ensures code != Fine ==> Abs() == old(Abs()) && state == old(state)
      ensures old(state) != Ready ==> code == NotPermitted
      ensures old(state) == Ready && g.vl == [] ==> code == Empty
      ensures old(state) == Ready && g.vl != [] ==> (code == MultiRoot <==> forall r :: !SingleRoot(g.oe, r))
      ensures old(state) == Ready && g.vl != [] ==> forall r :: SingleRoot(g.oe, r) ==>
        && (code == CircularDep <==> CycleReaches(g.Edges(), r))
        && (code == IsolatedTask <==> !Acyclic(g.Edges()) && !CycleReaches(g.Edges(), r))
      ensures code == Fine <==>
        old(state) == Ready && g.vl != [] && Acyclic(g.Edges()) && exists r :: SingleRoot(g.oe, r)
      ensures code == Fine ==> state == Started && S.StartStep(g.ie.Keys, g.Edges(), count, Abs())
      ensures code == Fine ==> exists r :: SingleRoot(g.oe, r) && S.Plan(g.ie.Keys, g.Edges(), r)
    {
      hide Consistent, EdgesOf, Distinct, Acyclic, CycleReaches, S.Plan, SingleRoot, S.Leaves, S.Injects;
      var root;
      code, root := Verify();
      forall r | SingleRoot(g.oe, r) && SingleRoot(g.oe, root) ensures r == root {
        SameRoot(g.oe, r, root);
      }
      if code != Fine {
        return;
      }
      VerticesAreSet(g.vl, g.ie.Keys);
      state := Started;
      InjectLeaves();
    }

    /** Counts down the targets of `t` and injects those whose counter falls to zero. */
    method ReleaseTargets(t: Vertex, ghost a: S.Sched)
      requires g.Valid() && t in g.oe && count.Keys == g.ie.Keys
      requires a.left == g.ie.Keys && a.es == g.Edges() && a.count == count
      modifies this`count, this`log
      ensures count.Keys == old(count).Keys
      ensures forall v :: v in count ==> count[v] == old(count)[v] - if Edge(t, v) in g.Edges() then 1 else 0
      ensures exists inj :: S.Injects(inj, S.Released(a, t)) && log == old(log) + inj
    {
      hide Consistent, EdgesOf, Distinct, Counted, CountedDown, Picked, S.Released, S.Injects;
      OutEdgesAre(g.ie, g.oe, t);
      var out := g.oe[t];
      ghost var inj: seq<S.Event> := [];
      CountedNone(out, t, count);
      for i := 0 to |out|
        invariant Counted(out[..i], t, old(count), count, inj) && log == old(log) + inj
      {
        var w := out[i].vt;
        assert out[i] in out && out[i] == Edge(t, w);
        CountedNext(out, i, t, old(count), count, inj);
        count := count[w := count[w] - 1];
        if count[w] == 0 {
          inj := inj + [S.Inject(w)];
          log := log + [S.Inject(w)];
        }
      }
      assert out[..|out|] == out;
      CountedAll(out, t, old(count), count, inj, a);
    }

    /** Takes a finished task out. */
    method TakeOut(t: Vertex, ghost es: set<Edge>)
      requires g.Valid() && t in g.ie && count.Keys == g.ie.Keys && es == g.Edges()
      modifies this`count, g
      ensures g.Valid() && g.ie.Keys == old(g.ie.Keys) - {t} && |g.vl| == |old(g.vl)| - 1
      ensures g.Edges() == es - S.EdgesInto(es, t) - S.EdgesOut(es, t)
      ensures count == old(count) - {t}
    {
      hide Consistent, EdgesOf, Distinct, S.EdgesInto, S.EdgesOut;
      g.RemoveVertex(t);
      count := count - {t};
      WithoutIsMinus(es, t, g.Edges());
    }

    /** A task has finished: release what waited for it, or report that everything is done. */
    method OnTaskFinished(t: Vertex)
      requires Valid() && state == Started && t in g.ie && S.Inject(t) in log
      modifies this, g
      ensures Valid() && S.FinishStep(old(Abs()), t, Abs())
      ensures state == if |old(g.vl)| == 1 then Finished else Started
      ensures |g.vl| == |old(g.vl)| - 1
    {
      hide Consistent, EdgesOf, Distinct, S.EdgesInto, S.EdgesOut, S.Released, S.Injects;
      ghost var a := Abs();
      unhandled := unhandled - 1;
      if unhandled == 0 {
        TakeOut(t, a.es);
        state := Finished;
        log := log + [S.Finish(t), S.Done(t)];
        return;
      }
      log := log + [S.Finish(t)];
      SameKeys(g.ie, g.oe);
      ReleaseTargets(t, a);
      TakeOut(t, a.es);
    }
  }

  /** Halfway through the tasks: those without prerequisites among `done` are injected. */
  ghost predicate Injected(ie: map<Vertex, seq<Edge>>, done: seq<Vertex>, log: seq<S.Event>) {
    && Distinct(log)
    && (forall x :: x in log ==> x.Inject? && x.task in done && x.task in ie && ie[x.task] == [])
    && (forall v :: v in done && v in ie && ie[v] == [] ==> S.Inject(v) in log)
  }

  lemma NoneInjected(ie: map<Vertex, seq<Edge>>, vl: seq<Vertex>, log: seq<S.Event>)
    requires log == []
    ensures Injected(ie, vl[..0], log)
  {
  }

  lemma OneMoreInjected(ie: map<Vertex, seq<Edge>>, vl: seq<Vertex>, i: nat, log: seq<S.Event>)
    requires Distinct(vl) && i < |vl| && vl[i] in ie && Injected(ie, vl[..i], log)
    ensures Injected(ie, vl[..i + 1], if ie[vl[i]] == [] then log + [S.Inject(vl[i])] else log)
  {
    var v, more := vl[i], log + [S.Inject(vl[i])];
    assert v !in vl[..i];
    assert vl[..i + 1] == vl[..i] + [v];
    assert more[|log|] == S.Inject(v);
    assert forall x :: x in log ==> x in more;
  }

  lemma AllInjected(ie: map<Vertex, seq<Edge>>, vl: seq<Vertex>, log: seq<S.Event>, leaves: set<Vertex>)
    requires Injected(ie, vl, log) && forall v :: v in leaves <==> v in ie && ie[v] == []
    requires forall v :: v in ie ==> v in vl
    ensures S.Injects(log, leaves)
  {
    forall i | 0 <= i < |log| ensures log[i].Inject? && log[i].task in leaves {
      assert log[i] in log;
    }
  }

  /** Halfway through the targets of `t`: counters lowered for the edges `done`. */
  ghost predicate CountedDown(done: seq<Edge>, t: Vertex, before: map<Vertex, int>, count: map<Vertex, int>) {
    && count.Keys == before.Keys
    && forall v :: v in count ==> count[v] == before[v] - if Edge(t, v) in done then 1 else 0
  }

  /** And those injected whose counter fell to zero. */
  ghost predicate Picked(done: seq<Edge>, t: Vertex, before: map<Vertex, int>, inj: seq<S.Event>) {
    && Distinct(inj)
    && (forall x :: x in inj ==> x.Inject? && Edge(t, x.task) in done && x.task in before && before[x.task] == 1)
    && (forall v :: v in before && Edge(t, v) in done && before[v] == 1 ==> S.Inject(v) in inj)
  }

  ghost predicate Counted(done: seq<Edge>, t: Vertex, before: map<Vertex, int>, count: map<Vertex, int>,
                          inj: seq<S.Event>)
  {
    CountedDown(done, t, before, count) && Picked(done, t, before, inj)
  }

  lemma CountedNone(out: seq<Edge>, t: Vertex, count: map<Vertex, int>)
    ensures Counted(out[..0], t, count, count, [])
  {
  }

  lemma OneEdgeMore(out: seq<Edge>, i: nat, t: Vertex)
    requires Distinct(out) && i < |out| && out[i].vf == t
    ensures Edge(t, out[i].vt) !in out[..i]
    ensures forall e :: e in out[..i + 1] <==> e in out[..i] || e == Edge(t, out[i].vt)
  {
    assert out[i] == Edge(t, out[i].vt);
    assert out[..i + 1] == out[..i] + [out[i]];
  }

  lemma PickedNext(out: seq<Edge>, i: nat, t: Vertex, before: map<Vertex, int>, inj: seq<S.Event>)
    requires Distinct(out) && i < |out| && out[i].vf == t && out[i].vt in before
    requires Picked(out[..i], t, before, inj)
    ensures Picked(out[..i + 1], t, before, if before[out[i].vt] == 1 then inj + [S.Inject(out[i].vt)] else inj)
  {
    var w := out[i].vt;
    var more := inj + [S.Inject(w)];
    OneEdgeMore(out, i, t);
    assert S.Inject(w) !in inj;
    assert more[|inj|] == S.Inject(w);
    assert forall x :: x in inj ==> x in more;
  }

  lemma CountedNext(out: seq<Edge>, i: nat, t: Vertex, before: map<Vertex, int>, count: map<Vertex, int>,
                    inj: seq<S.Event>)
    requires Distinct(out) && i < |out| && out[i].vf == t && out[i].vt in before
    requires Counted(out[..i], t, before, count, inj)
    ensures var w := out[i].vt;
      && w in count
      && Counted(out[..i + 1], t, before, count[w := count[w] - 1],
                 if count[w] - 1 == 0 then inj + [S.Inject(w)] else inj)
  {
    hide Distinct, Picked;
    OneEdgeMore(out, i, t);
    PickedNext(out, i, t, before, inj);
  }

  lemma CountedAll(out: seq<Edge>, t: Vertex, before: map<Vertex, int>, count: map<Vertex, int>,
                   inj: seq<S.Event>, a: S.Sched)
    requires Counted(out, t, before, count, inj)
    requires a.count == before && a.left == before.Keys
    requires forall v :: Edge(t, v) in a.es <==> Edge(t, v) in out
    ensures count.Keys == before.Keys
    ensures forall v :: v in count ==> count[v] == before[v] - if Edge(t, v) in a.es then 1 else 0
    ensures S.Injects(inj, S.Released(a, t))
  {
    forall i | 0 <= i < |inj| ensures inj[i].Inject? && inj[i].task in S.Released(a, t) {
      assert inj[i] in inj;
    }
  }

  lemma WithoutIsMinus(es: set<Edge>, t: Vertex, rest: set<Edge>)
    requires EdgesWithout(es, t, rest)
    ensures rest == es - S.EdgesInto(es, t) - S.EdgesOut(es, t)
  {
  }

  lemma LeavesAre(ie: map<Vertex, seq<Edge>>, oe: map<Vertex, seq<Edge>>)
    requires Consistent(ie, oe)
    ensures forall v :: v in S.Leaves(ie.Keys, EdgesOf(ie)) <==> v in ie && ie[v] == []
  {
    forall v | v in ie ensures v in S.Leaves(ie.Keys, EdgesOf(ie)) <==> ie[v] == [] {
      InDegree(ie, oe, v);
    }
  }

  /** The outgoing list of `t` holds each of its edges once. */
  lemma OutEdgesAre(ie: map<Vertex, seq<Edge>>, oe: map<Vertex, seq<Edge>>, t: Vertex)
    requires Consistent(ie, oe) && t in oe
    ensures Distinct(oe[t])
    ensures forall e :: e in oe[t] ==> e.vf == t && e.vt in ie
    ensures forall v :: Edge(t, v) in EdgesOf(ie) <==> Edge(t, v) in oe[t]
  {
    forall e | e in oe[t] ensures e.vf == t && e.vt in ie {
      assert In(oe, t, e);
    }
    forall v ensures Edge(t, v) in EdgesOf(ie) <==> Edge(t, v) in oe[t] {
      EdgeIn(ie, oe, Edge(t, v));
    }
  }

  lemma SameKeys(ie: map<Vertex, seq<Edge>>, oe: map<Vertex, seq<Edge>>)
    requires Consistent(ie, oe)
    ensures ie.Keys == oe.Keys
  {
  }

  lemma RootIsVertex(ie: map<Vertex, seq<Edge>>, oe: map<Vertex, seq<Edge>>, root: Vertex)
    requires Consistent(ie, oe) && SingleRoot(oe, root)
    ensures root in ie
  {
  }

  /** Counting the vertices that reach the root decides whether a cycle hides elsewhere. */
  lemma VerdictIsRight(ie: map<Vertex, seq<Edge>>, oe: map<Vertex, seq<Edge>>, root: Vertex, n: nat)
    requires Consistent(ie, oe) && SingleRoot(oe, root) && root in ie
    ensures CycleReaches(EdgesOf(ie), root) ==> !Acyclic(EdgesOf(ie))
    ensures !CycleReaches(EdgesOf(ie), root) && n == |Ancestors(ie.Keys, EdgesOf(ie), root)| ==>
      && (n < |ie.Keys| <==> !Acyclic(EdgesOf(ie)))
      && (n >= |ie.Keys| ==> S.Plan(ie.Keys, EdgesOf(ie), root))
  {
    var anc := Ancestors(ie.Keys, EdgesOf(ie), root);
    if !CycleReaches(EdgesOf(ie), root) && n == |anc| {
      if anc == ie.Keys {
        CyclesReachRoot(ie, oe, root);
        RootEdges(ie, oe);
        forall v | v in ie.Keys ensures Reaches(EdgesOf(ie), v, root) {
          InAncestors(ie.Keys, EdgesOf(ie), root, v);
        }
      } else {
        if Acyclic(EdgesOf(ie)) {
          AllReachOrCycle(ie, oe, root);
          assert false;
        }
        assert anc <= ie.Keys;
        assert ie.Keys == anc + (ie.Keys - anc);
        assert |ie.Keys - anc| > 0;
      }
    }
  }
}
