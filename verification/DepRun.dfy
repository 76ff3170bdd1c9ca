/** Whole runs of the dependency manager: it is started, and then told of one finished task after the other. */
module DepRun {
  import opened Basics
  import opened GraphSpec
  import opened Graph
  import S = Scheduler
  import D = TaskDepMan

  /** Which of the running tasks finishes next, given all that has happened. */
  type Chooser = seq<S.Event> -> Vertex

  /** A task that was injected and has not finished. */
  predicate Running(d: D.TaskDepMan, t: Vertex)
    reads d, d.g
  {
    t in d.g.ie && S.Inject(t) in d.log
  }

  lemma EnoughOnSets(ie: map<Vertex, seq<Edge>>, oe: map<Vertex, seq<Edge>>, count: map<Vertex, int>)
    requires Consistent(ie, oe) && D.Enough(ie, count)
    ensures forall v :: v in ie ==> v in count && count[v] >= |S.EdgesInto(EdgesOf(ie), v)|
  {
    hide Consistent, EdgesOf, S.EdgesInto;
    forall v | v in ie ensures v in count && count[v] >= |S.EdgesInto(EdgesOf(ie), v)| {
      D.InDegree(ie, oe, v);
    }
  }

  /** The state of the manager is the last of a run of the scheduler. */
  ghost predicate InRun(d: D.TaskDepMan, tasks: set<Vertex>, deps: set<Edge>, count: map<Vertex, int>,
                        states: seq<S.Sched>, picks: seq<Vertex>)
    reads d, d.g
  {
    d.Valid() && d.state != D.Ready && S.IsRun(tasks, deps, count, states, picks) && states[|picks|] == d.Abs()
  }

  /** With counters that fit, some task is running until the plan is done. */
  lemma SomeRunning(d: D.TaskDepMan, tasks: set<Vertex>, deps: set<Edge>, root: Vertex, count: map<Vertex, int>,
                    states: seq<S.Sched>, picks: seq<Vertex>) returns (t: Vertex)
    requires S.Plan(tasks, deps, root) && count.Keys == tasks && S.CountsFit(tasks, deps, count)
    requires InRun(d, tasks, deps, count, states, picks) && d.state != D.Finished
    ensures Running(d, t)
  {
    hide S.Plan, S.CountsFit, S.IsRun, S.RunInv, Consistent, Distinct;
    S.RunLength(tasks, deps, count, states, picks);
    S.RunKeepsInv(tasks, deps, root, count, states, picks, |picks|);
    var b;
    t, b := S.Progress(tasks, deps, root, states[|picks|]);
  }

  /** A run that cannot go on is done. */
  lemma CannotGoOn(d: D.TaskDepMan, tasks: set<Vertex>, deps: set<Edge>, root: Vertex, count: map<Vertex, int>,
                   states: seq<S.Sched>, picks: seq<Vertex>)
    requires S.Plan(tasks, deps, root) && count.Keys == tasks && S.CountsFit(tasks, deps, count)
    requires InRun(d, tasks, deps, count, states, picks)
    requires d.state == D.Finished || forall t :: !Running(d, t)
    ensures d.state == D.Finished && |picks| == |tasks|
  {
    hide S.Plan, S.CountsFit, S.IsRun, S.RunInv, Consistent, Distinct;
    if d.state != D.Finished {
      var t := SomeRunning(d, tasks, deps, root, count, states, picks);
    } else {
      S.RunLength(tasks, deps, count, states, picks);
      S.RunKeepsInv(tasks, deps, root, count, states, picks, |picks|);
      S.DoneMeansNoneLeft(tasks, deps, root, states[|picks|]);
    }
  }

  /**
   * The owner's message loop: starts the manager and hands it one finished task after the other, in any order,
   * until none is running.
   */
  method Run(d: D.TaskDepMan, choose: Chooser) returns (code: D.Code, ghost root: Vertex,
                                                       ghost states: seq<S.Sched>, ghost picks: seq<Vertex>)
    requires d.Valid() && d.state == D.Ready && (d.g.vl != [] ==> exists v :: D.IsRoot(d.g.oe, v))
    modifies d, d.g
    ensures d.Valid()
    ensures code == D.Fine <==>
      old(d.g.vl != [] && Acyclic(d.g.Edges()) && exists r :: D.SingleRoot(d.g.oe, r))
    ensures code == D.Fine ==> old(D.SingleRoot(d.g.oe, root))
    ensures code == D.Fine ==> InRun(d, old(d.g.ie.Keys), old(d.g.Edges()), old(d.count), states, picks)
    ensures code == D.Fine ==>
      (d.state == D.Finished <==> old(S.CountsFit(d.g.ie.Keys, d.g.Edges(), d.count)))
    ensures code == D.Fine && d.state == D.Finished ==>
      |picks| == |old(d.g.ie.Keys)| && S.Complete(old(d.g.ie.Keys), old(d.g.Edges()), root, d.log)
    ensures code == D.Fine && old(d.Exact()) ==> d.state == D.Finished && forall i :: 0 <= i < |states| ==>
      S.ExactOn(states[i].left, S.Among(old(d.g.Edges()), states[i].left), states[i].count)
  {
    hide Consistent, EdgesOf, Distinct, S.Plan, S.CountsFit, S.ExactOn, S.StartStep, S.Complete, D.SingleRoot, Acyclic;
    hide D.Enough, S.FinishStep, S.Among;
    ghost var tasks, deps, count := d.g.ie.Keys, d.g.Edges(), d.count;
    EnoughOnSets(d.g.ie, d.g.oe, d.count);
    code := d.Start();
    root, states, picks := 0, [], [];
    if code != D.Fine {
      return;
    }
    root :| D.SingleRoot(d.g.oe, root) && S.Plan(tasks, deps, root);
    states := [d.Abs()];
    while d.state == D.Started
      invariant InRun(d, tasks, deps, count, states, picks)
      decreases |d.g.vl|
    {
      var t := choose(d.log);
      if !Running(d, t) {
        if u :| u in d.g.ie && Running(d, u) {
          t := u;
        } else {
          break;
        }
      }
      d.OnTaskFinished(t);
      S.ExtendRun(tasks, deps, count, states, picks, t, d.Abs());
      states, picks := states + [d.Abs()], picks + [t];
    }
    if S.CountsFit(tasks, deps, count) {
      CannotGoOn(d, tasks, deps, root, count, states, picks);
      S.DoneRun(tasks, deps, root, count, states, picks);
    } else {
      S.NeverDone(tasks, deps, count, states, picks);
    }
    if S.ExactOn(tasks, deps, count) {
      S.ExactFits(tasks, deps, count);
      forall i | 0 <= i < |states| ensures S.ExactOn(states[i].left, S.Among(deps, states[i].left), states[i].count) {
        S.CountersAreExact(tasks, deps, root, count, states, picks, i);
      }
    }
  }

  // ----- a removed prerequisite

  lemma RootIff(ie: map<Vertex, seq<Edge>>, oe: map<Vertex, seq<Edge>>, v: Vertex)
    requires Consistent(ie, oe)
    ensures D.IsRoot(oe, v) <==> v in ie && forall e :: e in EdgesOf(ie) ==> e.vf != v
  {
    if v in oe && oe[v] != [] {
      var e := oe[v][0];
      assert In(oe, v, e);
      EdgeIn(ie, oe, e);
    }
    if D.IsRoot(oe, v) {
      forall e | e in EdgesOf(ie) ensures e.vf != v {
        EdgeIn(ie, oe, e);
      }
    }
  }

  /** Task 0 as it waits for task 1, and for a task that is gone. */
  lemma BlockedPlan(ie: map<Vertex, seq<Edge>>, oe: map<Vertex, seq<Edge>>, count: map<Vertex, int>)
    requires Consistent(ie, oe) && ie.Keys == {0, 1} && EdgesOf(ie) == {Edge(1, 0)} && count == map[0 := 2, 1 := 0]
    ensures D.SingleRoot(oe, 0) && Acyclic(EdgesOf(ie)) && !S.CountsFit(ie.Keys, EdgesOf(ie), count)
  {
    hide Consistent, EdgesOf;
    forall v ensures D.IsRoot(oe, v) <==> v == 0 {
      RootIff(ie, oe, v);
    }
    S.OneEdgeIsAcyclic();
    assert S.EdgesInto({Edge(1, 0)}, 0) == {Edge(1, 0)};
  }

  method ThreeTasks() returns (d: D.TaskDepMan)
    ensures fresh(d) && fresh(d.g) && d.Valid() && d.state == D.Ready
    ensures d.g.vl == [0, 1, 2] && d.g.Edges() == {} && d.count == map[0 := 0, 1 := 0, 2 := 0]
  {
    hide Consistent, EdgesOf, Distinct, D.Enough, S.ExactOn;
    d := new D.TaskDepMan();
    var r := d.AddTask(0);
    r := d.AddTask(1);
    r := d.AddTask(2);
  }

  /** Task 0 waits for the other two. */
  method TwoDependencies() returns (d: D.TaskDepMan)
    ensures fresh(d) && fresh(d.g) && d.Valid() && d.state == D.Ready && d.g.ie.Keys == {0, 1, 2}
    ensures d.g.Edges() == {Edge(1, 0), Edge(2, 0)} && d.count == map[0 := 2, 1 := 0, 2 := 0]
  {
    hide Consistent, EdgesOf, Distinct, D.Enough, S.ExactOn;
    d := ThreeTasks();
    assert d.g.ie.Keys == {0, 1, 2};
    var r := d.AddDependency(0, 1);
    r := d.AddDependency(0, 2);
  }

  lemma OnlyOneLeft(es: set<Edge>, rest: set<Edge>)
    requires es == {Edge(1, 0), Edge(2, 0)} && EdgesWithout(es, 2, rest)
    ensures rest == {Edge(1, 0)}
  {
  }

  /** Then task 2 is removed. */
  method RemovePrerequisite() returns (d: D.TaskDepMan)
    ensures fresh(d) && fresh(d.g) && d.Valid() && d.state == D.Ready && d.g.vl != []
    ensures d.g.ie.Keys == {0, 1} && d.g.Edges() == {Edge(1, 0)} && d.count == map[0 := 2, 1 := 0]
  {
    hide Consistent, EdgesOf, EdgesWithout, Distinct, D.Enough, S.ExactOn, S.CountsFit;
    hide D.NoDependents, D.OnlyPrerequisite;
    d := TwoDependencies();
    ghost var es := d.g.Edges();
    var r := d.RemoveTask(2);
    OnlyOneLeft(es, d.g.Edges());
    assert 0 in d.g.vl;
  }

  /** The plan that is left passes the check, and is never done, whatever the order in which its tasks finish. */
  method RemovedPrerequisiteBlocks(choose: Chooser) returns (code: D.Code, d: D.TaskDepMan)
    ensures code == D.Fine && d.Valid() && d.state == D.Started
  {
    hide Consistent, EdgesOf, Distinct, S.Plan, S.CountsFit, S.ExactOn, S.Complete, Acyclic;
    d := RemovePrerequisite();
    BlockedPlan(d.g.ie, d.g.oe, d.count);
    ghost var root, states, picks;
    code, root, states, picks := Run(d, choose);
  }
}
