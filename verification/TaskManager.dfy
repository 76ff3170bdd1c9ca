/**
 * The slot-limited task manager as a step system.  What is done under the queue lock is one step;
 * the balance call that follows an addition or a removal comes later, in any order with other threads,
 * and so does the start of a task that a balance call has moved to the run queue.
 */
module TaskManager {
  import opened Basics
  import opened Queues

  const NR_PRI := 5

  const UNLIMITED := 999999999

  datatype Task = Task(id: nat, pri: nat)

  type Tasks = seq<Task>

  /**
   * `pending` balance calls have yet to be made.  `moved` tasks are taken for running and have yet to be
   * started.  `tagged` tasks belong to the manager; `used` ones are no longer ready to start.
   * `stamp` is history: when a task came to the ready queue.
   */
  datatype Manager = Manager(ready: seq<Tasks>, run: Tasks, slots: nat, pending: nat, moved: set<Task>,
    tagged: set<Task>, used: set<Task>, stamp: map<Task, nat>, clock: nat, died: bool)

  function Create(slots: int): Manager {
    Manager(seq(NR_PRI, _ => []), [], if slots <= 0 then UNLIMITED else slots, 0, {}, {}, {}, map[], 0, false)
  }

  /** The most urgent list below `n` that has a task, or -1. */
  function MostUrgent(ready: seq<Tasks>, n: nat): (r: int)
    requires n <= |ready|
    ensures -1 <= r < n && (forall j :: r < j < n ==> ready[j] == []) && (r >= 0 ==> ready[r] != [])
  {
    if n == 0 then -1 else if ready[n - 1] != [] then n - 1 else MostUrgent(ready, n - 1)
  }

  function IndexOf(q: Tasks, t: Task): (k: nat)
    requires t in q
    ensures k < |q| && q[k] == t
  {
    if q[0] == t then 0 else IndexOf(q[1..], t) + 1
  }

  function Without(q: Tasks, t: Task): Tasks
    requires t in q
  {
    var k := IndexOf(q, t);
    q[..k] + q[k + 1..]
  }

  datatype Step = Add(t: Task) | Balance | StartMoved(t: Task) | Finish(t: Task) | Cancel(t: Task)

  predicate Enabled(s: Manager, step: Step) {
    match step
    case Add(t) => t.pri < NR_PRI
    case Balance => s.pending > 0
    case StartMoved(t) => t in s.moved
    case Finish(t) => t in s.run && t in s.used
    case Cancel(t) => t in s.tagged && t.pri < NR_PRI
  }

  predicate Shape(s: Manager) {
    |s.ready| == NR_PRI
  }

  function Next(s: Manager, step: Step): Manager
    requires Shape(s) && Enabled(s, step)
  {
    match step
    case Add(t) =>
      if t in s.tagged || t in s.used then s
      else s.(ready := s.ready[t.pri := s.ready[t.pri] + [t]], tagged := s.tagged + {t}, pending := s.pending + 1,
              stamp := s.stamp[t := s.clock], clock := s.clock + 1)
    case Balance =>
      if Total(s.ready) > 0 && |s.run| < s.slots then
        var i := MostUrgent(s.ready, NR_PRI);
        if i < 0 then s.(died := true)
        else
          var t := s.ready[i][0];
          s.(ready := s.ready[i := s.ready[i][1..]], run := s.run + [t],
            pending := s.pending - 1, moved := s.moved + {t})
      else s.(pending := s.pending - 1)
    case StartMoved(t) =>
      // a task that is not ready refuses to start, and that is fatal
      s.(moved := s.moved - {t}, used := s.used + {t}, died := s.died || t in s.used)
    case Finish(t) =>
      s.(run := Without(s.run, t), tagged := s.tagged - {t}, pending := s.pending + 1)
    case Cancel(t) =>
      // the thread itself is cancelled right after the lock is released; nothing before that depends on it
      if t in s.ready[t.pri] then
        s.(ready := s.ready[t.pri := Without(s.ready[t.pri], t)], used := s.used + {t})
      else if t in s.run then s.(used := s.used + {t})
      else s
  }

  // ----- what every step keeps

  /** A ready list: tasks of that priority in the order of their coming, none of them used. */
  ghost predicate ListOk(s: Manager, p: nat)
    requires p < |s.ready|
  {
    var q := s.ready[p];
    && (forall k :: 0 <= k < |q| ==> WaitsWell(s, p, q[k]))
    && (forall j, k :: 0 <= j < k < |q| ==> s.stamp[q[j]] < s.stamp[q[k]])
  }

  ghost predicate WaitsWell(s: Manager, p: nat, t: Task) {
    t.pri == p && t in s.tagged && t !in s.used && t !in s.run && t in s.stamp && s.stamp[t] < s.clock
  }

  function Min(a: int, b: int): int {
    if a < b then a else b
  }

  ghost predicate Inv(s: Manager) {
    && Shape(s)
    && (forall p :: 0 <= p < NR_PRI ==> ListOk(s, p))
    && Distinct(s.run) && (forall k :: 0 <= k < |s.run| ==> s.run[k] in s.tagged)
    && (forall t :: t in s.moved ==> t in s.run || t in s.used)
    && |s.run| <= s.slots && s.pending >= Min(Total(s.ready), s.slots - |s.run|)
  }

  lemma CreateInv(slots: int)
    ensures Inv(Create(slots))
  {
    NothingInTotal(Create(slots).ready);
  }

  lemma AddInv(s: Manager, t: Task)
    requires Inv(s) && Enabled(s, Add(t))
    ensures Inv(Next(s, Add(t)))
  {
    hide Total;
    var n := Next(s, Add(t));
    if n != s {
      TotalUpdate(s.ready, t.pri, s.ready[t.pri] + [t]);
      forall p | 0 <= p < NR_PRI ensures ListOk(n, p) {
        assert ListOk(s, p);
      }
    }
  }

  lemma BalanceInv(s: Manager)
    requires Inv(s) && Enabled(s, Balance)
    ensures Inv(Next(s, Balance)) && (Next(s, Balance).died ==> s.died)
  {
    var i := MostUrgent(s.ready, NR_PRI);
    if i < 0 {
      NothingInTotal(s.ready);
    }
    hide Total, MostUrgent;
    if Total(s.ready) > 0 && |s.run| < s.slots {
      var n := Next(s, Balance);
      TotalUpdate(s.ready, i, s.ready[i][1..]);
      assert ListOk(s, i);
      assert WaitsWell(s, i, s.ready[i][0]);
      forall p | 0 <= p < NR_PRI ensures ListOk(n, p) {
        ListAfterMove(s, n, i, p);
      }
    } else {
      var n := Next(s, Balance);
      forall p | 0 <= p < NR_PRI ensures ListOk(n, p) {
        assert ListOk(s, p);
        forall k | 0 <= k < |n.ready[p]| ensures WaitsWell(n, p, n.ready[p][k]) {
          assert WaitsWell(s, p, s.ready[p][k]);
        }
      }
    }
  }

  lemma ListAfterMove(s: Manager, n: Manager, i: nat, p: nat)
    requires Shape(s) && i < NR_PRI && p < NR_PRI && s.ready[i] != [] && ListOk(s, i) && ListOk(s, p)
    requires n.ready == s.ready[i := s.ready[i][1..]] && n.run == s.run + [s.ready[i][0]]
    requires n.tagged == s.tagged && n.used == s.used && n.stamp == s.stamp && n.clock == s.clock
    ensures ListOk(n, p)
  {
    var t := s.ready[i][0];
    assert WaitsWell(s, i, t);
    forall k | 0 <= k < |n.ready[p]| ensures WaitsWell(n, p, n.ready[p][k]) {
      if p == i {
        assert n.ready[p][k] == s.ready[p][k + 1];
        assert s.stamp[s.ready[p][0]] < s.stamp[s.ready[p][k + 1]];
      }
      assert WaitsWell(s, p, n.ready[p][k]);
    }
  }

  lemma FinishInv(s: Manager, t: Task)
    requires Inv(s) && Enabled(s, Finish(t))
    ensures Inv(Next(s, Finish(t)))
  {
    hide Total, IndexOf;
    var n := Next(s, Finish(t));
    forall p | 0 <= p < NR_PRI ensures ListOk(n, p) {
      assert ListOk(s, p);
      forall k | 0 <= k < |n.ready[p]| ensures WaitsWell(n, p, n.ready[p][k]) {
        assert WaitsWell(s, p, s.ready[p][k]);
      }
    }
  }

  lemma CancelInv(s: Manager, t: Task)
    requires Inv(s) && Enabled(s, Cancel(t))
    ensures Inv(Next(s, Cancel(t)))
  {
    hide Total, IndexOf;
    var n := Next(s, Cancel(t));
    if t in s.ready[t.pri] {
      TotalUpdate(s.ready, t.pri, Without(s.ready[t.pri], t));
    }
    forall p | 0 <= p < NR_PRI ensures ListOk(n, p) {
      ListAfterCancel(s, t, p);
    }
  }

  /** Taking one task out keeps the order of the others. */
  lemma OrderAfterCancel(s: Manager, q: Tasks, t: Task)
    requires t in q && forall x :: x in q ==> x in s.stamp
    requires forall j, k :: 0 <= j < k < |q| ==> s.stamp[q[j]] < s.stamp[q[k]]
    ensures t !in Without(q, t)
    ensures forall x :: x in Without(q, t) ==> x in q
    ensures forall j, k :: 0 <= j < k < |Without(q, t)| ==> s.stamp[Without(q, t)[j]] < s.stamp[Without(q, t)[k]]
  {
    hide IndexOf;
    var at, r := IndexOf(q, t), Without(q, t);
    forall k | 0 <= k < |r| ensures r[k] in q && r[k] != t {
      var from := if k < at then k else k + 1;
      assert r[k] == q[from];
      assert from < at ==> s.stamp[q[from]] < s.stamp[q[at]];
      assert at < from ==> s.stamp[q[at]] < s.stamp[q[from]];
    }
  }

  lemma ListAfterCancel(s: Manager, t: Task, p: nat)
    requires Inv(s) && Enabled(s, Cancel(t)) && p < NR_PRI
    ensures ListOk(Next(s, Cancel(t)), p)
  {
    hide Total, Without, Distinct;
    var n := Next(s, Cancel(t));
    var q, r := s.ready[p], n.ready[p];
    WaitingTasks(s, p);
    if p == t.pri && t in q {
      OrderAfterCancel(s, q, t);
    }
    forall k | 0 <= k < |r| ensures WaitsWell(n, p, r[k]) {
      assert r[k] in q && r[k] != t;
    }
  }

  /** The tasks of a ready list, one by one. */
  lemma WaitingTasks(s: Manager, p: nat)
    requires Shape(s) && p < NR_PRI && ListOk(s, p)
    ensures forall x :: x in s.ready[p] ==> WaitsWell(s, p, x)
    ensures forall j, k :: 0 <= j < k < |s.ready[p]| ==> s.stamp[s.ready[p][j]] < s.stamp[s.ready[p][k]]
  {
    forall x | x in s.ready[p] ensures WaitsWell(s, p, x) {
      var k :| 0 <= k < |s.ready[p]| && s.ready[p][k] == x;
    }
  }

  lemma StartInv(s: Manager, t: Task)
    requires Inv(s) && Enabled(s, StartMoved(t))
    ensures Inv(Next(s, StartMoved(t)))
  {
    hide Total;
    var n := Next(s, StartMoved(t));
    forall p | 0 <= p < NR_PRI ensures ListOk(n, p) {
      assert ListOk(s, p);
      forall k | 0 <= k < |n.ready[p]| ensures WaitsWell(n, p, n.ready[p][k]) {
        assert WaitsWell(s, p, s.ready[p][k]);
      }
    }
  }

  lemma StepInv(s: Manager, step: Step)
    requires Inv(s) && Enabled(s, step)
    ensures Inv(Next(s, step))
  {
    hide Inv, Next;
    match step {
      case Add(t) => AddInv(s, t);
      case Balance => BalanceInv(s);
      case StartMoved(t) => StartInv(s, t);
      case Finish(t) => FinishInv(s, t);
      case Cancel(t) => CancelInv(s, t);
    }
  }

  // ----- whole runs

  ghost predicate Leads(s: Manager, run: seq<Step>, t: Manager)
    decreases |run|
  {
    if run == [] then s == t
    else Shape(s) && Enabled(s, run[0]) && Leads(Next(s, run[0]), run[1..], t)
  }

  lemma {:induction false} RunInv(s: Manager, run: seq<Step>, t: Manager)
    requires Inv(s) && Leads(s, run, t)
    ensures Inv(t)
    decreases |run|
  {
    hide Inv, Next;
    if run != [] {
      StepInv(s, run[0]);
      RunInv(Next(s, run[0]), run[1..], t);
    }
  }

  lemma {:induction false} SlotsStay(s: Manager, run: seq<Step>, t: Manager)
    requires Leads(s, run, t)
    ensures t.slots == s.slots
    decreases |run|
  {
    hide Total, MostUrgent, IndexOf;
    if run != [] {
      SlotsStay(Next(s, run[0]), run[1..], t);
    }
  }

  /**
   * The run queue never outgrows the slots, and enough balance calls are under way to use the free ones:
   * with none under way, no slot is free while a task waits.
   */
  lemma SlotsUsedWell(slots: int, run: seq<Step>, s: Manager)
    requires Leads(Create(slots), run, s)
    ensures |s.run| <= s.slots == Create(slots).slots
    ensures s.pending >= Min(Total(s.ready), s.slots - |s.run|)
    ensures s.pending == 0 ==> Total(s.ready) == 0 || |s.run| == s.slots
  {
    CreateInv(slots);
    RunInv(Create(slots), run, s);
    SlotsStay(Create(slots), run, s);
  }

  /** Whether a task waits in the ready queue. */
  predicate Waits(s: Manager, t: Task)
    requires Shape(s)
  {
    t.pri < NR_PRI && t in s.ready[t.pri]
  }

  /** No task is in two places, or twice in one. */
  lemma EachTaskOnce(slots: int, run: seq<Step>, s: Manager)
    requires Leads(Create(slots), run, s)
    ensures Shape(s) && Distinct(s.run)
    ensures forall p :: 0 <= p < NR_PRI ==> Distinct(s.ready[p])
    ensures forall p, t :: 0 <= p < NR_PRI && t in s.ready[p] ==> t.pri == p && t !in s.run
  {
    CreateInv(slots);
    RunInv(Create(slots), run, s);
    hide Total, Leads;
    forall p | 0 <= p < NR_PRI
      ensures Distinct(s.ready[p]) && forall t :: t in s.ready[p] ==> t.pri == p && t !in s.run
    {
      assert ListOk(s, p);
      forall t | t in s.ready[p] ensures t.pri == p && t !in s.run {
        var k :| 0 <= k < |s.ready[p]| && s.ready[p][k] == t;
        assert WaitsWell(s, p, t);
      }
    }
  }

  /** `t` is more urgent than `x`, or came first. */
  predicate GoesFirst(s: Manager, t: Task, x: Task) {
    x.pri < t.pri || (x.pri == t.pri && t in s.stamp && x in s.stamp && s.stamp[t] < s.stamp[x])
  }

  /** What a balance call moves goes before everything else that waits; it moves something if it can. */
  lemma BalanceMovesTheFirst(slots: int, run: seq<Step>, s: Manager)
    requires Leads(Create(slots), run, s) && Shape(s) && s.pending > 0
    ensures var n := Next(s, Balance);
      if Total(s.ready) == 0 || |s.run| == s.slots then n == s.(pending := s.pending - 1)
      else |n.run| == |s.run| + 1 && n.run[..|s.run|] == s.run && var t := n.run[|s.run|];
        Waits(s, t) && forall x :: Waits(s, x) && x != t ==> GoesFirst(s, t, x)
  {
    CreateInv(slots);
    RunInv(Create(slots), run, s);
    hide Leads;
    if Total(s.ready) > 0 && |s.run| < s.slots {
      var i := MostUrgent(s.ready, NR_PRI);
      if i < 0 {
        NothingInTotal(s.ready);
      }
      hide Total, MostUrgent;
      assert ListOk(s, i);
      var t := s.ready[i][0];
      assert WaitsWell(s, i, t);
      forall x | Waits(s, x) && x != t ensures GoesFirst(s, t, x) {
        if x.pri == i {
          var k :| 0 <= k < |s.ready[i]| && s.ready[i][k] == x;
          assert WaitsWell(s, i, s.ready[i][k]) && s.stamp[s.ready[i][0]] < s.stamp[s.ready[i][k]];
        }
      }
    }
  }

  // ----- cancelling between the move and the start

  /** No task is cancelled between its move to the run queue and its start. */
  ghost predicate Prudent(s: Manager, run: seq<Step>)
    requires Shape(s)
    decreases |run|
  {
    run == [] || (Enabled(s, run[0]) ==>
      (run[0].Cancel? ==> run[0].t !in s.moved) && Shape(Next(s, run[0])) && Prudent(Next(s, run[0]), run[1..]))
  }

  /** Moved tasks are still ready to start. */
  ghost predicate Startable(s: Manager) {
    !s.died && forall t :: t in s.moved ==> t !in s.used
  }

  lemma PrudentStep(s: Manager, step: Step)
    requires Inv(s) && Startable(s) && Enabled(s, step) && (step.Cancel? ==> step.t !in s.moved)
    ensures Startable(Next(s, step))
  {
    if step.Balance? {
      BalanceInv(s);
      hide Total;
      var i := MostUrgent(s.ready, NR_PRI);
      if i >= 0 {
        assert ListOk(s, i);
        assert WaitsWell(s, i, s.ready[i][0]);
      }
    }
  }

  lemma {:induction false} PrudentRun(s: Manager, run: seq<Step>, t: Manager)
    requires Inv(s) && Startable(s) && Leads(s, run, t) && Prudent(s, run)
    ensures !t.died
    decreases |run|
  {
    hide Inv, Next, Startable;
    if run != [] {
      PrudentStep(s, run[0]);
      StepInv(s, run[0]);
      PrudentRun(Next(s, run[0]), run[1..], t);
    } else {
      assert Startable(s) && s == t;
      StartableLives(s);
    }
  }

  lemma StartableLives(s: Manager)
    requires Startable(s)
    ensures !s.died
  {
  }

  /** A moved task that is not ready any more will refuse to start. */
  ghost predicate Doomed(s: Manager) {
    s.died || exists t :: t in s.moved && t in s.used
  }

  lemma DoomedStep(s: Manager, step: Step)
    requires Shape(s) && Doomed(s) && Enabled(s, step)
    ensures Doomed(Next(s, step))
  {
    hide Total, MostUrgent, IndexOf;
    if !s.died {
      var t :| t in s.moved && t in s.used;
      if step != StartMoved(t) {
        assert t in Next(s, step).moved && t in Next(s, step).used;
      }
    }
  }

  /** A cancellation in that window dooms the manager. */
  lemma CancelDooms(s: Manager, t: Task)
    requires Inv(s) && Enabled(s, Cancel(t)) && t in s.moved
    ensures Doomed(Next(s, Cancel(t)))
  {
    hide Total, IndexOf;
    MovedDoesNotWait(s, t);
    assert t in Next(s, Cancel(t)).moved && t in Next(s, Cancel(t)).used;
  }

  lemma MovedDoesNotWait(s: Manager, t: Task)
    requires Inv(s) && t in s.moved && t.pri < NR_PRI
    ensures t !in s.ready[t.pri]
  {
    hide Total;
    assert ListOk(s, t.pri);
    forall k | 0 <= k < |s.ready[t.pri]| ensures s.ready[t.pri][k] != t {
      assert WaitsWell(s, t.pri, s.ready[t.pri][k]);
    }
  }

  lemma {:induction false} DoomedRun(s: Manager, run: seq<Step>, t: Manager)
    requires Inv(s) && Leads(s, run, t) && (Doomed(s) || !Prudent(s, run))
    ensures Doomed(t)
    decreases |run|
  {
    hide Inv, Next, Doomed;
    if run != [] {
      StepInv(s, run[0]);
      if Doomed(s) {
        DoomedStep(s, run[0]);
      } else if run[0].Cancel? && run[0].t in s.moved {
        CancelDooms(s, run[0].t);
      }
      ShapeOf(Next(s, run[0]));
      DoomedRun(Next(s, run[0]), run[1..], t);
    }
  }

  lemma ShapeOf(s: Manager)
    requires Inv(s)
    ensures Shape(s)
  {
  }

  /**
   * When all moved tasks have had their start, the manager has died of one that refused exactly when
   * some task was cancelled between its move to the run queue and its start.
   */
  lemma DiesIffCancelledTooSoon(slots: int, run: seq<Step>, s: Manager)
    requires Leads(Create(slots), run, s) && s.moved == {}
    ensures s.died <==> !Prudent(Create(slots), run)
  {
    CreateInv(slots);
    if Prudent(Create(slots), run) {
      PrudentRun(Create(slots), run, s);
    } else {
      DoomedRun(Create(slots), run, s);
    }
  }

  /** A manager whose tasks are not cancelled in that window never dies of a start that is refused. */
  lemma NeverDies(slots: int, run: seq<Step>, s: Manager)
    requires Leads(Create(slots), run, s) && Prudent(Create(slots), run)
    ensures !s.died
  {
    CreateInv(slots);
    PrudentRun(Create(slots), run, s);
  }

  /** A run in which it does: the one task is moved, then cancelled, then started. */
  lemma CancelInTheWindow(t: Task, slots: int) returns (s: Manager)
    requires t.pri < NR_PRI
    ensures Leads(Create(slots), [Add(t), Balance, Cancel(t), StartMoved(t)], s) && s.died && s.moved == {}
  {
    var s0 := Create(slots);
    NothingInTotal(s0.ready);
    TotalUpdate(s0.ready, t.pri, [t]);
    hide Total, MostUrgent, IndexOf;
    var s1 := Next(s0, Add(t));
    assert s1.ready == s0.ready[t.pri := [t]] by {
      assert s0.ready[t.pri] + [t] == [t];
    }
    var i := MostUrgent(s1.ready, NR_PRI);
    assert s1.ready[t.pri] != [] && forall j :: 0 <= j < NR_PRI && j != t.pri ==> s1.ready[j] == [];
    assert i == t.pri;
    var s2 := Next(s1, Balance);
    assert s2.run == [t] && s2.ready[t.pri] == [] && s2.moved == {t};
    var s3 := Next(s2, Cancel(t));
    s := Next(s3, StartMoved(t));
    assert s.moved == {} && s.died;
    LeadsByOne(s3, StartMoved(t), [], s);
    assert [Cancel(t)] + [StartMoved(t)] == [Cancel(t), StartMoved(t)];
    assert [Balance] + [Cancel(t), StartMoved(t)] == [Balance, Cancel(t), StartMoved(t)];
    assert [Add(t)] + [Balance, Cancel(t), StartMoved(t)] == [Add(t), Balance, Cancel(t), StartMoved(t)];
    assert [StartMoved(t)] + [] == [StartMoved(t)];
    LeadsByOne(s2, Cancel(t), [StartMoved(t)], s);
    LeadsByOne(s1, Balance, [Cancel(t), StartMoved(t)], s);
    LeadsByOne(s0, Add(t), [Balance, Cancel(t), StartMoved(t)], s);
  }

  lemma LeadsByOne(s: Manager, step: Step, rest: seq<Step>, t: Manager)
    requires Shape(s) && Enabled(s, step) && Leads(Next(s, step), rest, t)
    ensures Leads(s, [step] + rest, t)
  {
    hide Next;
    assert ([step] + rest)[1..] == rest;
  }
}
