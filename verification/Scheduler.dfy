/** Runs of the dependency scheduler, as steps on plain values. */
module Scheduler {
  import opened Basics
  import opened GraphSpec

  datatype Event = Inject(task: Vertex) | Finish(task: Vertex) | Done(task: Vertex)

  /** Tasks and dependencies not finished yet, with the counters the tasks carry and what happened so far. */
  datatype Sched = Sched(
    left: set<Vertex>, es: set<Edge>, count: map<Vertex, int>, unhandled: int, log: seq<Event>, done: bool)

  function EdgesInto(es: set<Edge>, v: Vertex): set<Edge> {
    set e | e in es && e.vt == v
  }

  function EdgesOut(es: set<Edge>, v: Vertex): set<Edge> {
    set e | e in es && e.vf == v
  }

  function Among(es: set<Edge>, vs: set<Vertex>): set<Edge> {
    set e | e in es && e.vf in vs && e.vt in vs
  }

  ghost predicate Injects(inj: seq<Event>, vs: set<Vertex>) {
    && Distinct(inj)
    && (forall i :: 0 <= i < |inj| ==> inj[i].Inject? && inj[i].task in vs)
    && (forall v :: v in vs ==> Inject(v) in inj)
  }

  /** Tasks that nothing holds back at the start. */
  function Leaves(tasks: set<Vertex>, deps: set<Edge>): set<Vertex> {
    set v | v in tasks && EdgesInto(deps, v) == {}
  }

  /** `ytaskdepman_start`: the tasks without prerequisites are injected, in some order. */
  ghost predicate StartStep(tasks: set<Vertex>, deps: set<Edge>, count: map<Vertex, int>, a: Sched) {
    && a.left == tasks && a.es == deps && a.count == count && a.unhandled == |tasks| && !a.done
    && Injects(a.log, Leaves(tasks, deps))
  }

  /** Those for which the counter of a target of `t` falls to zero. */
  function Released(a: Sched, t: Vertex): set<Vertex> {
    set v | v in a.left && Edge(t, v) in a.es && v in a.count && a.count[v] == 1
  }

  /** `on_task_finished` in the started state. */
  ghost predicate FinishStep(a: Sched, t: Vertex, b: Sched) {
    && t in a.left && Inject(t) in a.log && !a.done
    && b.left == a.left - {t}
    && b.es == a.es - EdgesInto(a.es, t) - EdgesOut(a.es, t)
    && b.unhandled == a.unhandled - 1
    && b.count.Keys == b.left && b.left <= a.count.Keys
    && (if b.unhandled == 0 then
          b.done && b.log == a.log + [Finish(t), Done(t)]
        else
          && !b.done
          && (forall v :: v in b.left ==> b.count[v] == a.count[v] - if Edge(t, v) in a.es then 1 else 0)
          && exists inj :: Injects(inj, Released(a, t)) && b.log == a.log + [Finish(t)] + inj)
  }

  // ----- when the counters are right

  /** Every task that still waits for something counts exactly what it waits for. */
  ghost predicate CountsFit(left: set<Vertex>, es: set<Edge>, count: map<Vertex, int>) {
    forall v :: v in left && EdgesInto(es, v) != {} ==> v in count && count[v] == |EdgesInto(es, v)|
  }

  /** Every counter is the number of prerequisites, also where that is zero. */
  ghost predicate ExactOn(vs: set<Vertex>, es: set<Edge>, count: map<Vertex, int>) {
    forall v :: v in vs ==> v in count && count[v] == |EdgesInto(es, v)|
  }

  ghost predicate Plan(tasks: set<Vertex>, deps: set<Edge>, root: Vertex) {
    && Acyclic(deps) && root in tasks
    && (forall e :: e in deps ==> e.vf in tasks && e.vt in tasks)
    && (forall v :: v in tasks ==> Reaches(deps, v, root))
  }

  /** Nothing is injected before all its prerequisites finished, or finishes without being injected. */
  ghost predicate LogOrdered(deps: set<Edge>, log: seq<Event>) {
    && (forall i, e :: 0 <= i < |log| && e in deps && log[i] == Inject(e.vt) ==> Finish(e.vf) in log[..i])
    && (forall i :: 0 <= i < |log| && log[i].Finish? ==> Inject(log[i].task) in log[..i])
  }

  /** The log says of `v` what is left of it: finished or not, injected or still waiting. */
  ghost predicate TaskMatches(a: Sched, v: Vertex) {
    && (Finish(v) in a.log <==> v !in a.left)
    && (Inject(v) in a.log <==> (v !in a.left || EdgesInto(a.es, v) == {}))
  }

  ghost predicate LogMatches(tasks: set<Vertex>, a: Sched) {
    && (forall v :: v in tasks ==> TaskMatches(a, v))
    && (forall x :: x in a.log ==> x.task in tasks)
    && Distinct(a.log)
  }

  ghost predicate RunInv(tasks: set<Vertex>, deps: set<Edge>, root: Vertex, a: Sched) {
    && a.left <= tasks && a.es == Among(deps, a.left) && a.count.Keys == a.left
    && CountsFit(a.left, a.es, a.count)
    && a.unhandled == |a.left|
    && LogMatches(tasks, a) && LogOrdered(deps, a.log)
    && (a.done <==> a.left == {})
    && (forall v :: Done(v) in a.log ==> a.done)
    && (a.done ==> |a.log| >= 2 && a.log[|a.log| - 2..] == [Finish(root), Done(root)])
  }

  lemma StartInv(tasks: set<Vertex>, deps: set<Edge>, root: Vertex, count: map<Vertex, int>, a: Sched)
    requires Plan(tasks, deps, root) && count.Keys == tasks && CountsFit(tasks, deps, count)
    requires StartStep(tasks, deps, count, a)
    ensures RunInv(tasks, deps, root, a)
  {
    assert a.es == Among(deps, tasks);
    forall e | e in deps ensures e.vt !in Leaves(tasks, deps) {
      assert e in EdgesInto(deps, e.vt);
    }
  }

  /** What still has to finish includes everything that depends on it. */
  lemma {:induction false} LeftIsClosed(tasks: set<Vertex>, deps: set<Edge>, root: Vertex, a: Sched, p: seq<Vertex>)
    requires Plan(tasks, deps, root) && RunInv(tasks, deps, root, a)
    requires IsPath(deps, p) && p[0] in a.left
    ensures p[|p| - 1] in a.left
    decreases |p|
  {
    if |p| > 1 {
      var e := Edge(p[0], p[1]);
      assert e in deps;
      if p[1] !in a.left {
        NotLeftNeedsPrereq(tasks, deps, root, a, e);
      }
      var q := p[1..];
      forall i | 0 <= i < |q| - 1 ensures Edge(q[i], q[i + 1]) in deps {
        assert Edge(p[i + 1], p[i + 2]) in deps;
      }
      LeftIsClosed(tasks, deps, root, a, q);
    }
  }

  lemma FinishNeedsPrereq(deps: set<Edge>, log: seq<Event>, e: Edge)
    requires LogOrdered(deps, log) && e in deps && Finish(e.vt) in log
    ensures Finish(e.vf) in log
  {
    var i :| 0 <= i < |log| && log[i] == Finish(e.vt);
    assert Inject(e.vt) in log[..i];
    var j :| 0 <= j < i && log[j] == Inject(e.vt);
    assert Finish(e.vf) in log[..j];
  }

  lemma NotLeftNeedsPrereq(tasks: set<Vertex>, deps: set<Edge>, root: Vertex, a: Sched, e: Edge)
    requires Plan(tasks, deps, root) && RunInv(tasks, deps, root, a) && e in deps && e.vf in a.left
    ensures e.vt in a.left
  {
    hide CountsFit, Acyclic, Reaches, LogOrdered, Distinct;
    assert TaskMatches(a, e.vt) && TaskMatches(a, e.vf);
    if e.vt !in a.left {
      FinishNeedsPrereq(deps, a.log, e);
      assert false;
    }
  }

  /** The root is injected only when nothing else is left. */
  lemma RootIsLast(tasks: set<Vertex>, deps: set<Edge>, root: Vertex, a: Sched, v: Vertex)
    requires Plan(tasks, deps, root) && RunInv(tasks, deps, root, a) && v in a.left && v != root
    ensures root in a.left && EdgesInto(a.es, root) != {}
  {
    var p :| Joins(deps, p, v, root);
    hide CountsFit, LogMatches, LogOrdered, Acyclic, Reaches, EdgesInto;
    var n := |p| - 1;
    PathInit(deps, p);
    LeftIsClosed(tasks, deps, root, a, p);
    LeftIsClosed(tasks, deps, root, a, p[..n]);
    PrereqLeft(deps, a, Edge(p[n - 1], root));
  }

  lemma PathInit(es: set<Edge>, p: seq<Vertex>)
    requires IsPath(es, p) && |p| > 1
    ensures IsPath(es, p[..|p| - 1]) && Edge(p[|p| - 2], p[|p| - 1]) in es
  {
    assert Edge(p[|p| - 2], p[|p| - 2 + 1]) in es;
  }

  lemma PrereqLeft(deps: set<Edge>, a: Sched, e: Edge)
    requires e in deps && a.es == Among(deps, a.left) && e.vf in a.left && e.vt in a.left
    ensures EdgesInto(a.es, e.vt) != {}
  {
    assert e in EdgesInto(a.es, e.vt);
  }

  // ----- one task finishes

  /** `b` follows from the legal state `a` when `t` finishes. */
  ghost predicate Follows(tasks: set<Vertex>, deps: set<Edge>, root: Vertex, a: Sched, t: Vertex, b: Sched) {
    Plan(tasks, deps, root) && RunInv(tasks, deps, root, a) && FinishStep(a, t, b)
  }

  lemma IntoAfter(es: set<Edge>, t: Vertex, v: Vertex)
    requires v != t
    ensures EdgesInto(es - EdgesInto(es, t) - EdgesOut(es, t), v) == EdgesInto(es, v) - {Edge(t, v)}
  {
  }

  lemma AmongAfter(deps: set<Edge>, left: set<Vertex>, t: Vertex)
    ensures var es := Among(deps, left); es - EdgesInto(es, t) - EdgesOut(es, t) == Among(deps, left - {t})
  {
  }

  lemma EdgesAfter(tasks: set<Vertex>, deps: set<Edge>, root: Vertex, a: Sched, t: Vertex, b: Sched)
    requires Follows(tasks, deps, root, a, t, b)
    ensures EdgesInto(a.es, t) == {} && Edge(t, t) !in a.es
    ensures b.es == Among(deps, b.left)
    ensures forall v :: v in b.left ==> EdgesInto(b.es, v) == EdgesInto(a.es, v) - {Edge(t, v)}
  {
    assert TaskMatches(a, t);
    assert Edge(t, t) !in EdgesInto(a.es, t);
    hide LogMatches, LogOrdered, CountsFit, Injects, Plan, EdgesInto, EdgesOut, Among;
    AmongAfter(deps, a.left, t);
    forall v | v in b.left ensures EdgesInto(b.es, v) == EdgesInto(a.es, v) - {Edge(t, v)} {
      IntoAfter(a.es, t, v);
    }
  }

  lemma StepBasics(tasks: set<Vertex>, deps: set<Edge>, root: Vertex, a: Sched, t: Vertex, b: Sched)
    requires Follows(tasks, deps, root, a, t, b)
    ensures t in a.left && b.left == a.left - {t} && b.left <= tasks && b.count.Keys == b.left
    ensures Inject(t) in a.log && Finish(t) !in a.log && Done(t) !in a.log && t in tasks
    ensures b.unhandled == |b.left| && (b.done <==> b.unhandled == 0)
    ensures LogMatches(tasks, a) && LogOrdered(deps, a.log)
    ensures forall v :: Done(v) !in a.log
    ensures b.unhandled == 0 ==> b.log == a.log + [Finish(t), Done(t)]
    ensures b.unhandled != 0 ==> exists inj :: Injects(inj, Released(a, t)) && b.log == a.log + [Finish(t)] + inj
  {
    assert TaskMatches(a, t);
    hide LogOrdered, CountsFit, Injects, Acyclic, Reaches, EdgesInto, EdgesOut, Among, TaskMatches, Distinct;
    assert |a.left - {t}| == |a.left| - 1;
  }

  lemma CountsAfter(tasks: set<Vertex>, deps: set<Edge>, root: Vertex, a: Sched, t: Vertex, b: Sched)
    requires Follows(tasks, deps, root, a, t, b)
    ensures CountsFit(b.left, b.es, b.count)
  {
    EdgesAfter(tasks, deps, root, a, t, b);
    StepBasics(tasks, deps, root, a, t, b);
    hide LogMatches, LogOrdered, Injects, Plan, Among;
    forall v | v in b.left && EdgesInto(b.es, v) != {} ensures b.count[v] == |EdgesInto(b.es, v)| {
      assert EdgesInto(a.es, v) != {};
      if Edge(t, v) in a.es {
        assert Edge(t, v) in EdgesInto(a.es, v);
      }
    }
  }

  lemma CountedDown(tasks: set<Vertex>, deps: set<Edge>, root: Vertex, a: Sched, t: Vertex, b: Sched, v: Vertex)
    requires Follows(tasks, deps, root, a, t, b) && v in b.left && b.unhandled != 0
    ensures v in a.left && v in a.count && v in b.count
    ensures b.count[v] == a.count[v] - if Edge(t, v) in a.es then 1 else 0
  {
    hide RunInv, Injects, Plan, EdgesInto, EdgesOut, Released;
  }

  /** Exact counters stay exact. */
  lemma ExactAfter(tasks: set<Vertex>, deps: set<Edge>, root: Vertex, a: Sched, t: Vertex, b: Sched)
    requires Follows(tasks, deps, root, a, t, b) && ExactOn(a.left, a.es, a.count)
    ensures ExactOn(b.left, b.es, b.count)
  {
    hide Follows, LogMatches, LogOrdered, Injects, Among;
    EdgesAfter(tasks, deps, root, a, t, b);
    StepBasics(tasks, deps, root, a, t, b);
    forall v | v in b.left ensures v in b.count && b.count[v] == |EdgesInto(b.es, v)| {
      CountedDown(tasks, deps, root, a, t, b, v);
      if Edge(t, v) in a.es {
        assert Edge(t, v) in EdgesInto(a.es, v);
      }
    }
  }

  /** A released task waited for `t` alone. */
  lemma ReleasedAre(tasks: set<Vertex>, deps: set<Edge>, root: Vertex, a: Sched, t: Vertex, b: Sched)
    requires Follows(tasks, deps, root, a, t, b)
    ensures forall v :: v in Released(a, t) <==>
      v in b.left && EdgesInto(a.es, v) != {} && EdgesInto(b.es, v) == {}
    ensures forall v :: v in Released(a, t) ==> EdgesInto(a.es, v) == {Edge(t, v)}
  {
    EdgesAfter(tasks, deps, root, a, t, b);
    hide LogMatches, LogOrdered, Injects;
    forall v | v in Released(a, t) ensures EdgesInto(a.es, v) == {Edge(t, v)} {
      assert Edge(t, v) in EdgesInto(a.es, v);
      assert |EdgesInto(a.es, v) - {Edge(t, v)}| == 0;
    }
    forall v | v in b.left && EdgesInto(a.es, v) != {} && EdgesInto(b.es, v) == {} ensures v in Released(a, t) {
      assert EdgesInto(a.es, v) == {Edge(t, v)};
      assert Edge(t, v) in EdgesInto(a.es, v);
    }
  }

  lemma OrderAfter(tasks: set<Vertex>, deps: set<Edge>, root: Vertex, a: Sched, t: Vertex, b: Sched, inj: seq<Event>)
    requires Follows(tasks, deps, root, a, t, b)
    requires Injects(inj, Released(a, t)) && b.log == a.log + [Finish(t)] + inj
    ensures LogOrdered(deps, b.log)
  {
    ReleasedAre(tasks, deps, root, a, t, b);
    hide CountsFit, Acyclic, Distinct, Reaches, Released;
    var n := |a.log|;
    forall i, e | 0 <= i < |b.log| && e in deps && b.log[i] == Inject(e.vt) ensures Finish(e.vf) in b.log[..i] {
      PrefixOf(a.log, t, inj, b.log, i);
      if i >= n {
        assert b.log[i] == inj[i - n - 1];
        OnlyPrereqLeft(tasks, deps, root, a, t, e);
      }
    }
    forall i | 0 <= i < |b.log| && b.log[i].Finish? ensures Inject(b.log[i].task) in b.log[..i] {
      PrefixOf(a.log, t, inj, b.log, i);
    }
  }

  lemma OnlyPrereqLeft(tasks: set<Vertex>, deps: set<Edge>, root: Vertex, a: Sched, t: Vertex, e: Edge)
    requires Plan(tasks, deps, root) && RunInv(tasks, deps, root, a)
    requires e in deps && e.vt in a.left && EdgesInto(a.es, e.vt) == {Edge(t, e.vt)}
    ensures e.vf == t || Finish(e.vf) in a.log
  {
    assert TaskMatches(a, e.vf);
    if e.vf in a.left {
      assert e in EdgesInto(a.es, e.vt);
    }
  }

  lemma TaskAfter(tasks: set<Vertex>, deps: set<Edge>, root: Vertex, a: Sched, t: Vertex, b: Sched, inj: seq<Event>,
                  v: Vertex)
    requires Follows(tasks, deps, root, a, t, b) && v in tasks
    requires Injects(inj, Released(a, t)) && b.log == a.log + [Finish(t)] + inj
    ensures TaskMatches(b, v)
  {
    hide Follows, Distinct, LogOrdered, Released, EdgesInto, EdgesOut, Among, TaskMatches;
    ReleasedAre(tasks, deps, root, a, t, b);
    EdgesAfter(tasks, deps, root, a, t, b);
    InSplit(a.log, t, inj, b.log);
    StepBasics(tasks, deps, root, a, t, b);
    InjectsExactly(inj, Released(a, t), v);
    hide Injects, LogMatches;
    MatchesAfter(a, t, b, inj, v);
  }

  lemma InjectsExactly(inj: seq<Event>, vs: set<Vertex>, v: Vertex)
    requires Injects(inj, vs)
    ensures Inject(v) in inj <==> v in vs
    ensures Finish(v) !in inj
  {
  }

  lemma MatchesAfter(a: Sched, t: Vertex, b: Sched, inj: seq<Event>, v: Vertex)
    requires TaskMatches(a, v) && t in a.left && b.left == a.left - {t} && Inject(t) in a.log
    requires Inject(v) in b.log <==> (Inject(v) in a.log || Inject(v) in inj)
    requires Finish(v) in b.log <==> (Finish(v) in a.log || v == t)
    requires v in b.left ==> EdgesInto(b.es, v) <= EdgesInto(a.es, v)
    requires Inject(v) in inj <==> (v in b.left && EdgesInto(a.es, v) != {} && EdgesInto(b.es, v) == {})
    ensures TaskMatches(b, v)
  {
    hide EdgesInto;
  }

  lemma InSplit(log: seq<Event>, t: Vertex, inj: seq<Event>, all: seq<Event>)
    requires all == log + [Finish(t)] + inj
    ensures forall x :: x in all <==> x in log || x == Finish(t) || x in inj
  {
  }

  lemma PrefixOf(log: seq<Event>, t: Vertex, inj: seq<Event>, all: seq<Event>, i: nat)
    requires all == log + [Finish(t)] + inj && i < |all|
    ensures i < |log| ==> all[..i] == log[..i] && all[i] == log[i]
    ensures i == |log| ==> all[..i] == log && all[i] == Finish(t)
    ensures i > |log| ==>
      all[i] == inj[i - |log| - 1] && Finish(t) in all[..i] && forall x :: x in log ==> x in all[..i]
  {
    if i > |log| {
      assert all[..i][..|log|] == log;
      assert all[..i][|log|] == Finish(t);
    }
  }

  lemma NewEntriesNew(tasks: set<Vertex>, deps: set<Edge>, root: Vertex, a: Sched, t: Vertex, b: Sched, inj: seq<Event>)
    requires Follows(tasks, deps, root, a, t, b)
    requires Injects(inj, Released(a, t)) && b.log == a.log + [Finish(t)] + inj
    ensures Distinct(b.log) && forall x :: x in b.log ==> x.task in tasks
  {
    ReleasedAre(tasks, deps, root, a, t, b);
    StepBasics(tasks, deps, root, a, t, b);
    hide Follows, EdgesInto, Released;
    forall i | 0 <= i < |inj| ensures inj[i] !in a.log && inj[i].task in tasks && inj[i] != Finish(t) {
      assert inj[i].task in Released(a, t);
      assert TaskMatches(a, inj[i].task);
    }
    hide TaskMatches;
    NoRepeatConcat(a.log, Finish(t), inj);
    InSplit(a.log, t, inj, b.log);
  }

  lemma NoRepeatConcat<T>(a: seq<T>, x: T, c: seq<T>)
    requires Distinct(a) && Distinct(c) && x !in a
    requires forall i :: 0 <= i < |c| ==> c[i] !in a && c[i] != x
    ensures Distinct(a + [x] + c)
  {
  }

  lemma StepInv(tasks: set<Vertex>, deps: set<Edge>, root: Vertex, a: Sched, t: Vertex, b: Sched)
    requires Follows(tasks, deps, root, a, t, b)
    ensures RunInv(tasks, deps, root, b)
  {
    hide Follows, LogOrdered, TaskMatches, CountsFit, Distinct, EdgesInto, EdgesOut, Among, Released;
    StepBasics(tasks, deps, root, a, t, b);
    EdgesAfter(tasks, deps, root, a, t, b);
    CountsAfter(tasks, deps, root, a, t, b);
    if b.unhandled == 0 {
      LastStep(tasks, deps, root, a, t, b);
    } else {
      var inj :| Injects(inj, Released(a, t)) && b.log == a.log + [Finish(t)] + inj;
      OrderAfter(tasks, deps, root, a, t, b, inj);
      NewEntriesNew(tasks, deps, root, a, t, b, inj);
      forall v | v in tasks ensures TaskMatches(b, v) {
        TaskAfter(tasks, deps, root, a, t, b, inj, v);
      }
      InSplit(a.log, t, inj, b.log);
    }
  }

  /** The task that empties the plan is the root, and completion is reported once, at the end. */
  lemma LastStep(tasks: set<Vertex>, deps: set<Edge>, root: Vertex, a: Sched, t: Vertex, b: Sched)
    requires Follows(tasks, deps, root, a, t, b) && b.unhandled == 0
    ensures t == root && b.left == {}
    ensures LogMatches(tasks, b) && LogOrdered(deps, b.log)
    ensures b.log[|b.log| - 2..] == [Finish(root), Done(root)]
  {
    hide LogOrdered, TaskMatches, CountsFit, Distinct, EdgesInto, EdgesOut, Among, Released, Plan, RunInv, FinishStep;
    StepBasics(tasks, deps, root, a, t, b);
    LastIsRoot(tasks, deps, root, a, t, b);
    hide Follows, Injects, LogMatches;
    assert b.left == {};
    assert a.left == {t};
    LogHasNoRepeat(tasks, a);
    LastLog(deps, a.log, t, b.log);
    AllMatch(tasks, a, t, b);
  }

  lemma LogHasNoRepeat(tasks: set<Vertex>, a: Sched)
    requires LogMatches(tasks, a)
    ensures Distinct(a.log)
  {
  }

  lemma AllMatch(tasks: set<Vertex>, a: Sched, t: Vertex, b: Sched)
    requires LogMatches(tasks, a) && Distinct(b.log) && a.left == {t} && b.left == {} && t in tasks
    requires Inject(t) in a.log && forall x :: x in b.log <==> x in a.log || x == Finish(t) || x == Done(t)
    ensures LogMatches(tasks, b)
  {
    hide Distinct, TaskMatches;
    forall v | v in tasks ensures TaskMatches(b, v) {
      FinishedTask(tasks, a, t, b, v);
    }
  }

  lemma LastIsRoot(tasks: set<Vertex>, deps: set<Edge>, root: Vertex, a: Sched, t: Vertex, b: Sched)
    requires Follows(tasks, deps, root, a, t, b) && b.unhandled == 0
    ensures t == root
  {
    hide LogOrdered, TaskMatches, CountsFit, Distinct, EdgesInto, EdgesOut, Among, Released, Plan, RunInv, FinishStep;
    StepBasics(tasks, deps, root, a, t, b);
    if t != root {
      RootIsLast(tasks, deps, root, a, t);
    }
  }

  lemma FinishedTask(tasks: set<Vertex>, a: Sched, t: Vertex, b: Sched, v: Vertex)
    requires LogMatches(tasks, a) && v in tasks && a.left == {t} && b.left == {}
    requires Inject(t) in a.log && forall x :: x in b.log <==> x in a.log || x == Finish(t) || x == Done(t)
    ensures TaskMatches(b, v)
  {
    assert TaskMatches(a, v);
  }

  lemma LastLog(deps: set<Edge>, log: seq<Event>, t: Vertex, all: seq<Event>)
    requires LogOrdered(deps, log) && Distinct(log) && Inject(t) in log && Finish(t) !in log && Done(t) !in log
    requires all == log + [Finish(t), Done(t)]
    ensures LogOrdered(deps, all) && Distinct(all)
    ensures forall x :: x in all <==> x in log || x == Finish(t) || x == Done(t)
    ensures all[|all| - 2..] == [Finish(t), Done(t)]
  {
    var n := |log|;
    assert all[..n] == log;
    assert forall i :: 0 <= i <= n ==> all[..i] == log[..i];
    assert all[n] == Finish(t) && all[n + 1] == Done(t);
  }

  // ----- whole runs

  /** `states[0]` follows the start, and each later state follows when the task picked finishes. */
  ghost predicate IsRun(tasks: set<Vertex>, deps: set<Edge>, count: map<Vertex, int>, states: seq<Sched>,
                        picks: seq<Vertex>)
  {
    && |states| == |picks| + 1 && StartStep(tasks, deps, count, states[0])
    && forall i :: 0 <= i < |picks| ==> FinishStep(states[i], picks[i], states[i + 1])
  }

  lemma {:induction false} RunKeepsInv(tasks: set<Vertex>, deps: set<Edge>, root: Vertex, count: map<Vertex, int>,
                                       states: seq<Sched>, picks: seq<Vertex>, i: nat)
    requires Plan(tasks, deps, root) && count.Keys == tasks && CountsFit(tasks, deps, count)
    requires IsRun(tasks, deps, count, states, picks) && i < |states|
    ensures RunInv(tasks, deps, root, states[i]) && |states[i].left| == |tasks| - i
    decreases i
  {
    hide Plan, RunInv, StartStep, FinishStep, CountsFit;
    if i == 0 {
      StartInv(tasks, deps, root, count, states[0]);
      StartsWithAll(tasks, deps, count, states[0]);
    } else {
      RunKeepsInv(tasks, deps, root, count, states, picks, i - 1);
      assert FinishStep(states[i - 1], picks[i - 1], states[i - 1 + 1]);
      StepInv(tasks, deps, root, states[i - 1], picks[i - 1], states[i]);
      OneFewer(states[i - 1], picks[i - 1], states[i]);
    }
  }

  lemma ExactFits(vs: set<Vertex>, es: set<Edge>, count: map<Vertex, int>)
    requires ExactOn(vs, es, count)
    ensures CountsFit(vs, es, count)
  {
  }

  /** Started with exact counters, every counter is the number of unfinished prerequisites all along. */
  lemma {:induction false} CountersAreExact(tasks: set<Vertex>, deps: set<Edge>, root: Vertex, count: map<Vertex, int>,
                                            states: seq<Sched>, picks: seq<Vertex>, i: nat)
    requires Plan(tasks, deps, root) && count.Keys == tasks && ExactOn(tasks, deps, count)
    requires IsRun(tasks, deps, count, states, picks) && i < |states|
    ensures ExactOn(states[i].left, Among(deps, states[i].left), states[i].count)
    decreases i
  {
    hide Plan, StartStep, FinishStep, CountsFit, ExactOn, LogMatches, LogOrdered, Among;
    ExactFits(tasks, deps, count);
    RunKeepsInv(tasks, deps, root, count, states, picks, i);
    if i == 0 {
      StartsExact(tasks, deps, count, states[0]);
    } else {
      CountersAreExact(tasks, deps, root, count, states, picks, i - 1);
      RunKeepsInv(tasks, deps, root, count, states, picks, i - 1);
      assert FinishStep(states[i - 1], picks[i - 1], states[i - 1 + 1]);
      ExactAfter(tasks, deps, root, states[i - 1], picks[i - 1], states[i]);
    }
  }

  lemma StartsExact(tasks: set<Vertex>, deps: set<Edge>, count: map<Vertex, int>, a: Sched)
    requires StartStep(tasks, deps, count, a) && ExactOn(tasks, deps, count)
    ensures ExactOn(a.left, a.es, a.count)
  {
  }

  lemma StartsWithAll(tasks: set<Vertex>, deps: set<Edge>, count: map<Vertex, int>, a: Sched)
    requires StartStep(tasks, deps, count, a)
    ensures a.left == tasks
  {
  }

  lemma OneFewer(a: Sched, t: Vertex, b: Sched)
    requires FinishStep(a, t, b)
    ensures |b.left| == |a.left| - 1
  {
    hide Injects, EdgesInto, EdgesOut, Released;
    assert b.left == a.left - {t};
  }

  /** As long as the plan is not done, some injected task has not finished, and it can finish. */
  lemma Progress(tasks: set<Vertex>, deps: set<Edge>, root: Vertex, a: Sched) returns (t: Vertex, b: Sched)
    requires Plan(tasks, deps, root) && RunInv(tasks, deps, root, a) && !a.done
    ensures FinishStep(a, t, b)
  {
    t := HasSource(deps, a.left);
    SourceIsInjected(tasks, deps, root, a, t);
    var inj := Enumerate(Released(a, t));
    b := After(a, t, inj);
    CanFinish(a, t, inj, b);
  }

  lemma SourceIsInjected(tasks: set<Vertex>, deps: set<Edge>, root: Vertex, a: Sched, t: Vertex)
    requires RunInv(tasks, deps, root, a) && t in a.left && NoneFrom(deps, a.left, t)
    ensures Inject(t) in a.log
  {
    assert EdgesInto(a.es, t) == {};
    assert TaskMatches(a, t);
  }

  /** The state in which `t` has finished and the releases went in the order `inj`. */
  function After(a: Sched, t: Vertex, inj: seq<Event>): Sched
    requires a.left <= a.count.Keys
  {
    var left, last := a.left - {t}, a.unhandled == 1;
    Sched(left, a.es - EdgesInto(a.es, t) - EdgesOut(a.es, t),
          map v | v in left :: a.count[v] - if Edge(t, v) in a.es then 1 else 0,
          a.unhandled - 1,
          if last then a.log + [Finish(t), Done(t)] else a.log + [Finish(t)] + inj, last)
  }

  lemma CanFinish(a: Sched, t: Vertex, inj: seq<Event>, b: Sched)
    requires t in a.left && Inject(t) in a.log && !a.done && a.left <= a.count.Keys && b == After(a, t, inj)
    requires Injects(inj, Released(a, t))
    ensures FinishStep(a, t, b)
  {
    hide EdgesInto, EdgesOut, Released, Injects;
    assert b.unhandled != 0 ==> b.log == a.log + [Finish(t)] + inj;
  }

  lemma {:induction false} Enumerate(vs: set<Vertex>) returns (inj: seq<Event>)
    ensures Injects(inj, vs)
    decreases |vs|
  {
    if vs == {} {
      inj := [];
    } else {
      var v :| v in vs;
      var rest := Enumerate(vs - {v});
      inj := rest + [Inject(v)];
      assert inj[|rest|] == Inject(v);
      forall u | u in vs ensures Inject(u) in inj {
        if u != v {
          assert Inject(u) in rest;
        }
      }
    }
  }

  /**
   * Every task was injected exactly once, after all its prerequisites had finished, and completion
   * was reported once, with the root, at the very end.
   */
  ghost predicate Complete(tasks: set<Vertex>, deps: set<Edge>, root: Vertex, log: seq<Event>) {
    && Distinct(log)
    && (forall v :: v in tasks ==> Inject(v) in log && Finish(v) in log)
    && (forall i, e :: 0 <= i < |log| && e in deps && log[i] == Inject(e.vt) ==> Finish(e.vf) in log[..i])
    && (forall i :: 0 <= i < |log| && log[i].Done? ==> i == |log| - 1)
    && |log| >= 2 && log[|log| - 2..] == [Finish(root), Done(root)]
  }

  /** With nothing left every task was injected and has finished. */
  lemma AllInLog(tasks: set<Vertex>, a: Sched)
    requires LogMatches(tasks, a) && a.left == {}
    ensures Distinct(a.log) && forall v :: v in tasks ==> Inject(v) in a.log && Finish(v) in a.log
  {
    hide Distinct;
    forall v | v in tasks ensures Inject(v) in a.log && Finish(v) in a.log {
      assert TaskMatches(a, v);
    }
  }

  /** A run in which all tasks have finished is complete. */
  lemma DoneRun(tasks: set<Vertex>, deps: set<Edge>, root: Vertex, count: map<Vertex, int>,
                states: seq<Sched>, picks: seq<Vertex>)
    requires Plan(tasks, deps, root) && count.Keys == tasks && CountsFit(tasks, deps, count)
    requires IsRun(tasks, deps, count, states, picks) && |picks| == |tasks|
    ensures states[|picks|].done && Complete(tasks, deps, root, states[|picks|].log)
  {
    hide Plan, CountsFit, IsRun, LogMatches, Distinct;
    RunLength(tasks, deps, count, states, picks);
    RunKeepsInv(tasks, deps, root, count, states, picks, |picks|);
    AllInLog(tasks, states[|picks|]);
    DoneIsLast(tasks, deps, root, states, picks, count, |picks|);
  }

  lemma DoneMeansNoneLeft(tasks: set<Vertex>, deps: set<Edge>, root: Vertex, a: Sched)
    requires RunInv(tasks, deps, root, a)
    ensures a.done <==> a.left == {}
  {
  }

  lemma DoneIsLast(tasks: set<Vertex>, deps: set<Edge>, root: Vertex, states: seq<Sched>, picks: seq<Vertex>,
                   count: map<Vertex, int>, n: nat)
    requires Plan(tasks, deps, root) && count.Keys == tasks && CountsFit(tasks, deps, count)
    requires IsRun(tasks, deps, count, states, picks) && n == |picks| == |tasks|
    ensures forall i :: 0 <= i < |states[n].log| && states[n].log[i].Done? ==> i == |states[n].log| - 1
  {
    hide Plan, StartStep, CountsFit, LogMatches, LogOrdered, RunInv;
    assert n > 0 by {
      RootInTasks(tasks, deps, root);
    }
    RunKeepsInv(tasks, deps, root, count, states, picks, n - 1);
    RunKeepsInv(tasks, deps, root, count, states, picks, n);
    var a, t, b := states[n - 1], picks[n - 1], states[n];
    assert FinishStep(states[n - 1], picks[n - 1], states[n - 1 + 1]);
    hide FinishStep;
    StepBasics(tasks, deps, root, a, t, b);
  }

  lemma RootInTasks(tasks: set<Vertex>, deps: set<Edge>, root: Vertex)
    requires Plan(tasks, deps, root)
    ensures root in tasks && |tasks| > 0
  {
  }

  /** Every run can be carried on until the plan is done. */
  lemma {:induction false} RunToTheEnd(tasks: set<Vertex>, deps: set<Edge>, root: Vertex, count: map<Vertex, int>,
                                       states: seq<Sched>, picks: seq<Vertex>)
    returns (allStates: seq<Sched>, allPicks: seq<Vertex>)
    requires Plan(tasks, deps, root) && count.Keys == tasks && CountsFit(tasks, deps, count)
    requires IsRun(tasks, deps, count, states, picks)
    ensures IsRun(tasks, deps, count, allStates, allPicks) && picks <= allPicks && states <= allStates
    ensures allStates[|allPicks|].done && |allPicks| == |tasks|
    decreases |tasks| - |picks|
  {
    var n := |picks|;
    RunKeepsInv(tasks, deps, root, count, states, picks, n);
    hide Plan, LogMatches, LogOrdered, CountsFit, FinishStep, StartStep;
    if states[n].done {
      allStates, allPicks := states, picks;
    } else {
      var t, b := Progress(tasks, deps, root, states[n]);
      ExtendRun(tasks, deps, count, states, picks, t, b);
      hide IsRun;
      allStates, allPicks := RunToTheEnd(tasks, deps, root, count, states + [b], picks + [t]);
    }
  }

  lemma ExtendRun(tasks: set<Vertex>, deps: set<Edge>, count: map<Vertex, int>,
                  states: seq<Sched>, picks: seq<Vertex>, t: Vertex, b: Sched)
    requires IsRun(tasks, deps, count, states, picks) && FinishStep(states[|picks|], t, b)
    ensures IsRun(tasks, deps, count, states + [b], picks + [t])
  {
    hide FinishStep, StartStep;
    var s2, p2 := states + [b], picks + [t];
    forall i | 0 <= i < |p2| ensures FinishStep(s2[i], p2[i], s2[i + 1]) {
      if i < |picks| {
        assert FinishStep(states[i], picks[i], states[i + 1]);
      }
    }
  }

  // ----- a counter that is too high

  /** `v` counts more prerequisites than it has. */
  ghost predicate Stuck(a: Sched, v: Vertex) {
    && v in a.left && !a.done && Inject(v) !in a.log && a.unhandled == |a.left|
    && v in a.count && a.count[v] > |EdgesInto(a.es, v)| && a.left <= a.count.Keys
  }

  lemma StuckStays(a: Sched, t: Vertex, b: Sched, v: Vertex)
    requires Stuck(a, v) && FinishStep(a, t, b)
    ensures Stuck(b, v)
  {
    assert t != v;
    IntoAfter(a.es, t, v);
    assert |a.left - {t}| == |a.left| - 1;
    assert v in b.left;
    assert b.unhandled != 0;
    if Edge(t, v) in a.es {
      assert Edge(t, v) in EdgesInto(a.es, v);
      assert |EdgesInto(a.es, v)| > 0;
    }
    var inj :| Injects(inj, Released(a, t)) && b.log == a.log + [Finish(t)] + inj;
    assert v !in Released(a, t);
    InSplit(a.log, t, inj, b.log);
  }

  /** A waiting task whose counter is too high is never injected, and the plan is never done. */
  lemma {:induction false} StuckForever(tasks: set<Vertex>, deps: set<Edge>, count: map<Vertex, int>,
                                        states: seq<Sched>, picks: seq<Vertex>, v: Vertex, i: nat)
    requires count.Keys == tasks && v in tasks && EdgesInto(deps, v) != {} && count[v] > |EdgesInto(deps, v)|
    requires IsRun(tasks, deps, count, states, picks) && i < |states|
    ensures Stuck(states[i], v)
    decreases i
  {
    if i > 0 {
      StuckForever(tasks, deps, count, states, picks, v, i - 1);
      assert FinishStep(states[i - 1], picks[i - 1], states[i - 1 + 1]);
      hide FinishStep, Stuck;
      StuckStays(states[i - 1], picks[i - 1], states[i], v);
    }
  }

  /** A plan in which some counter is too high is never done. */
  lemma NeverDone(tasks: set<Vertex>, deps: set<Edge>, count: map<Vertex, int>, states: seq<Sched>, picks: seq<Vertex>)
    requires count.Keys == tasks && forall v :: v in tasks ==> count[v] >= |EdgesInto(deps, v)|
    requires !CountsFit(tasks, deps, count) && IsRun(tasks, deps, count, states, picks)
    ensures !states[|picks|].done
  {
    hide IsRun;
    var v :| v in tasks && EdgesInto(deps, v) != {} && count[v] != |EdgesInto(deps, v)|;
    RunLength(tasks, deps, count, states, picks);
    StuckForever(tasks, deps, count, states, picks, v, |picks|);
  }

  lemma RunLength(tasks: set<Vertex>, deps: set<Edge>, count: map<Vertex, int>, states: seq<Sched>, picks: seq<Vertex>)
    requires IsRun(tasks, deps, count, states, picks)
    ensures |states| == |picks| + 1
  {
  }

  /**
   * Counters never fall below the number of prerequisites, so the plan can be completed exactly
   * when every waiting task's counter is right.
   */
  lemma CompletesIffCountsFit(tasks: set<Vertex>, deps: set<Edge>, root: Vertex, count: map<Vertex, int>)
    requires Plan(tasks, deps, root) && count.Keys == tasks
    requires forall v :: v in tasks ==> count[v] >= |EdgesInto(deps, v)|
    ensures CountsFit(tasks, deps, count) <==>
      exists states: seq<Sched>, picks: seq<Vertex> :: IsRun(tasks, deps, count, states, picks) && states[|picks|].done
  {
    if CountsFit(tasks, deps, count) {
      var inj := Enumerate(Leaves(tasks, deps));
      var a := Sched(tasks, deps, count, |tasks|, inj, false);
      assert IsRun(tasks, deps, count, [a], []);
      hide IsRun, CountsFit, Plan;
      var states, picks := RunToTheEnd(tasks, deps, root, count, [a], []);
      assert IsRun(tasks, deps, count, states, picks) && states[|picks|].done;
    } else {
      forall states: seq<Sched>, picks: seq<Vertex> | IsRun(tasks, deps, count, states, picks)
        ensures !states[|picks|].done
      {
        NeverDone(tasks, deps, count, states, picks);
      }
    }
  }

  lemma OneEdgePath(p: seq<Vertex>, u: Vertex, v: Vertex)
    requires Joins({Edge(1, 0)}, p, u, v) && |p| >= 2
    ensures u == 1 && v == 0
  {
    assert Edge(p[0], p[0 + 1]) in {Edge(1, 0)};
    assert Edge(p[|p| - 2], p[|p| - 2 + 1]) in {Edge(1, 0)};
  }

  lemma OneEdgeIsAcyclic()
    ensures Acyclic({Edge(1, 0)})
  {
    forall u: Vertex, p | Joins({Edge(1, 0)}, p, u, u) && |p| >= 2 ensures false {
      OneEdgePath(p, u, u);
    }
  }
}
