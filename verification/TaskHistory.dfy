/** Where each task of the task manager is, told from the steps of the run alone. */
module TaskHistory {
  import opened TaskManager
  import opened Basics
  import opened Queues

  /** When a step was first taken. */
  function FirstAt(run: seq<Step>, step: Step): (i: nat)
    requires step in run
    ensures i < |run| && run[i] == step && step !in run[..i]
  {
    if run[0] == step then 0 else
      var i := FirstAt(run[1..], step) + 1;
      assert run[..i] == [run[0]] + run[1..][..i - 1];
      i
  }

  /** The balance calls owed: one for each task added for the first time and for each finished one. */
  function Owed(run: seq<Step>): int {
    if run == [] then 0
    else
      var last, before := run[|run| - 1], run[..|run| - 1];
      match last
      case Add(_) => Owed(before) + if last in before then 0 else 1
      case Finish(_) => Owed(before) + 1
      case Balance => Owed(before) - 1
      case _ => Owed(before)
  }

  /** Who belongs to the manager, and who is no longer ready to start. */
  ghost predicate MarksTell(s: Manager, run: seq<Step>) {
    && (forall t :: t in s.tagged <==> Add(t) in run && Finish(t) !in run)
    && (forall t :: t in s.used <==> StartMoved(t) in run || Cancel(t) in run)
    && (forall t :: t in s.used ==> Add(t) in run)
    && (forall t :: Finish(t) in run ==> t in s.used)
    && (forall t :: Add(t) in run ==> t.pri < NR_PRI)
  }

  /** A task that nobody cancelled is in a queue; in the run queue it was started, or that is under way. */
  ghost predicate PlacesTell(s: Manager, run: seq<Step>)
    requires Shape(s)
  {
    && (forall t :: t in s.tagged && Cancel(t) !in run && t.pri < NR_PRI ==> t in s.run || Waits(s, t))
    && (forall t :: t in s.run && t !in s.used ==> t in s.moved)
  }

  /** The stamps are in the order of the additions. */
  ghost predicate StampsTell(s: Manager, run: seq<Step>) {
    && (forall t :: t in s.stamp <==> Add(t) in run)
    && (forall t :: t in s.stamp ==> s.stamp[t] < s.clock)
    && (forall t, x :: t in s.stamp && x in s.stamp ==>
          (s.stamp[t] < s.stamp[x] <==> FirstAt(run, Add(t)) < FirstAt(run, Add(x))))
  }

  ghost predicate Tells(s: Manager, run: seq<Step>) {
    && Shape(s) && MarksTell(s, run) && PlacesTell(s, run) && StampsTell(s, run) && s.pending == Owed(run)
  }

  // ----- what every step keeps

  lemma InMore(run: seq<Step>, step: Step, x: Step)
    ensures x in run + [step] <==> x in run || x == step
  {
  }

  /** Waiting tasks, as the invariant has them. */
  lemma WaitingIs(s: Manager, t: Task)
    requires Inv(s) && Waits(s, t)
    ensures t in s.tagged && t !in s.used && t !in s.run
  {
    hide Total;
    assert ListOk(s, t.pri);
    WaitingTasks(s, t.pri);
  }

  /** What a balance call moves. */
  lemma BalanceMoves(s: Manager)
    requires Inv(s) && Enabled(s, Balance)
    ensures var n := Next(s, Balance);
      && n.pending == s.pending - 1
      && (n == s.(pending := s.pending - 1) ||
          exists t :: Waits(s, t) && n.ready == s.ready[t.pri := s.ready[t.pri][1..]] && s.ready[t.pri][0] == t
            && n == s.(ready := n.ready, run := s.run + [t], pending := n.pending, moved := s.moved + {t}))
  {
    if Total(s.ready) > 0 && |s.run| < s.slots {
      var i := MostUrgent(s.ready, NR_PRI);
      if i < 0 {
        NothingInTotal(s.ready);
      }
      hide Total, MostUrgent;
      var t := s.ready[i][0];
      assert ListOk(s, i);
      assert WaitsWell(s, i, t);
      assert Waits(s, t);
    }
  }

  lemma MarksAfter(s: Manager, run: seq<Step>, step: Step)
    requires Inv(s) && MarksTell(s, run) && PlacesTell(s, run) && Enabled(s, step)
    ensures MarksTell(Next(s, step), run + [step])
  {
    hide Total, MostUrgent, IndexOf, ListOk;
    var n, more := Next(s, step), run + [step];
    forall x ensures x in more <==> x in run || x == step {
      InMore(run, step, x);
    }
    if step.Balance? {
      BalanceMoves(s);
    } else if step.Cancel? && step.t !in s.used {
      assert step.t in s.run || Waits(s, step.t);
    }
  }

  /** Taking one task out of a list leaves the others. */
  lemma OthersStay(q: Tasks, t: Task, x: Task)
    requires t in q && x in q && x != t
    ensures x in Without(q, t)
  {
    hide IndexOf;
    var k, r := IndexOf(q, t), Without(q, t);
    var i :| 0 <= i < |q| && q[i] == x;
    assert if i < k then r[i] == x else r[i - 1] == x;
  }

  /** And of a list without repeats nothing else is taken. */
  lemma TakenOut(q: Tasks, t: Task)
    requires t in q && Distinct(q)
    ensures t !in Without(q, t) && forall x :: x in Without(q, t) ==> x in q
  {
    hide IndexOf;
    var k, r := IndexOf(q, t), Without(q, t);
    forall i | 0 <= i < |r| ensures r[i] in q && r[i] != t {
      assert r[i] == if i < k then q[i] else q[i + 1];
    }
  }

  lemma PlacesAfterBalance(s: Manager, run: seq<Step>)
    requires Inv(s) && PlacesTell(s, run) && Enabled(s, Balance)
    ensures PlacesTell(Next(s, Balance), run + [Balance])
  {
    BalanceMoves(s);
    var n := Next(s, Balance);
    if n.ready != s.ready {
      hide Inv, Next;
      var t :| Waits(s, t) && n.ready == s.ready[t.pri := s.ready[t.pri][1..]] && s.ready[t.pri][0] == t
        && n == s.(ready := n.ready, run := s.run + [t], pending := n.pending, moved := s.moved + {t});
      forall x | x in n.tagged && Cancel(x) !in run + [Balance] && x.pri < NR_PRI ensures x in n.run || Waits(n, x) {
        InMore(run, Balance, Cancel(x));
        assert s.ready[t.pri] == [t] + s.ready[t.pri][1..];
      }
    }
  }

  lemma PlacesAfter(s: Manager, run: seq<Step>, step: Step)
    requires Inv(s) && PlacesTell(s, run) && Enabled(s, step)
    ensures Shape(Next(s, step)) && PlacesTell(Next(s, step), run + [step])
  {
    hide Total, MostUrgent, IndexOf, ListOk, Without;
    var n := Next(s, step);
    if step.Balance? {
      PlacesAfterBalance(s, run);
    } else {
      forall x | x in n.tagged && Cancel(x) !in run + [step] && x.pri < NR_PRI ensures x in n.run || Waits(n, x) {
        InMore(run, step, Cancel(x));
        if step.Finish? && x in s.run {
          OthersStay(s.run, step.t, x);
        } else if step.Cancel? && Waits(s, x) && x.pri == step.t.pri && step.t in s.ready[x.pri] {
          OthersStay(s.ready[x.pri], step.t, x);
        }
      }
      forall x | x in n.run && x !in n.used ensures x in n.moved {
        if step.Finish? {
          TakenOut(s.run, step.t);
        }
      }
    }
  }

  /** An earlier step stays where it was first taken, and a new one comes after it. */
  lemma {:induction false} FirstAtMore(run: seq<Step>, step: Step, x: Step)
    requires x in run
    ensures x in run + [step] && FirstAt(run + [step], x) == FirstAt(run, x)
  {
    if run[0] != x {
      assert (run + [step])[1..] == run[1..] + [step];
      FirstAtMore(run[1..], step, x);
    }
  }

  lemma {:induction false} FirstAtNew(run: seq<Step>, step: Step)
    requires step !in run
    ensures FirstAt(run + [step], step) == |run|
  {
    if run != [] {
      assert (run + [step])[1..] == run[1..] + [step];
      FirstAtNew(run[1..], step);
    }
  }

  /** No new task has come. */
  lemma SameStamps(s: Manager, n: Manager, run: seq<Step>, step: Step)
    requires StampsTell(s, run) && n.stamp == s.stamp && n.clock == s.clock
    requires step.Add? ==> step in run
    ensures StampsTell(n, run + [step])
  {
    hide FirstAt;
    forall t ensures Add(t) in run + [step] <==> Add(t) in run {
      InMore(run, step, Add(t));
    }
    forall t | Add(t) in run ensures FirstAt(run + [step], Add(t)) == FirstAt(run, Add(t)) {
      FirstAtMore(run, step, Add(t));
    }
  }

  lemma NewStamp(s: Manager, n: Manager, run: seq<Step>, t: Task)
    requires StampsTell(s, run) && Add(t) !in run && n.stamp == s.stamp[t := s.clock] && n.clock == s.clock + 1
    ensures StampsTell(n, run + [Add(t)])
  {
    hide FirstAt;
    forall x ensures Add(x) in run + [Add(t)] <==> Add(x) in run || x == t {
      InMore(run, Add(t), Add(x));
    }
    forall x | Add(x) in run ensures FirstAt(run + [Add(t)], Add(x)) == FirstAt(run, Add(x)) {
      FirstAtMore(run, Add(t), Add(x));
    }
    FirstAtNew(run, Add(t));
  }

  lemma OwedMore(run: seq<Step>, step: Step)
    ensures Owed(run + [step]) ==
      match step
      case Add(_) => Owed(run) + if step in run then 0 else 1
      case Finish(_) => Owed(run) + 1
      case Balance => Owed(run) - 1
      case _ => Owed(run)
  {
    assert (run + [step])[..|run|] == run;
  }

  lemma KnownIsAdded(s: Manager, run: seq<Step>, t: Task)
    requires MarksTell(s, run)
    ensures t in s.tagged || t in s.used <==> Add(t) in run
  {
  }

  lemma TellsAfter(s: Manager, run: seq<Step>, step: Step)
    requires Inv(s) && Tells(s, run) && Enabled(s, step)
    ensures Tells(Next(s, step), run + [step])
  {
    hide Inv, Owed, Total, MostUrgent, Without, MarksTell, PlacesTell, StampsTell;
    MarksAfter(s, run, step);
    PlacesAfter(s, run, step);
    OwedMore(run, step);
    if step.Balance? {
      BalanceMoves(s);
    } else if step.Add? {
      KnownIsAdded(s, run, step.t);
    }
    var n := Next(s, step);
    if step.Add? && step !in run {
      NewStamp(s, n, run, step.t);
    } else {
      SameStamps(s, n, run, step);
    }
  }

  lemma {:induction false} RunTells(s: Manager, before: seq<Step>, run: seq<Step>, t: Manager)
    requires Inv(s) && Tells(s, before) && Leads(s, run, t)
    ensures Inv(t) && Tells(t, before + run)
    decreases |run|
  {
    hide Inv, Tells, Next;
    if run == [] {
      assert before + run == before;
    } else {
      StepInv(s, run[0]);
      TellsAfter(s, before, run[0]);
      assert before + [run[0]] + run[1..] == before + run;
      RunTells(Next(s, run[0]), before + [run[0]], run[1..], t);
    }
  }

  lemma Told(slots: int, run: seq<Step>, s: Manager)
    requires Leads(Create(slots), run, s)
    ensures Inv(s) && Tells(s, run)
  {
    CreateInv(slots);
    assert Tells(Create(slots), []);
    RunTells(Create(slots), [], run, s);
    assert [] + run == run;
  }

  // ----- whole runs

  /**
   * A task waits exactly if it was added and has been neither cancelled nor started, and is not in the run queue.
   * As many balance calls are under way as are owed.
   */
  lemma WhoWaits(slots: int, run: seq<Step>, s: Manager)
    requires Leads(Create(slots), run, s)
    ensures Shape(s) && s.pending == Owed(run)
    ensures forall t :: Waits(s, t) <==>
      Add(t) in run && Cancel(t) !in run && StartMoved(t) !in run && t !in s.run
    ensures forall t :: Waits(s, t) || t in s.run ==> Enabled(s, Cancel(t))
  {
    Told(slots, run, s);
    forall t ensures Waits(s, t) <==> Add(t) in run && Cancel(t) !in run && StartMoved(t) !in run && t !in s.run {
      if Waits(s, t) {
        WaitingIs(s, t);
      }
    }
    forall t | Waits(s, t) || t in s.run ensures Enabled(s, Cancel(t)) {
      if Waits(s, t) {
        WaitingIs(s, t);
      }
    }
  }

  /** Each ready list is in the order in which its tasks were added. */
  lemma FirstCome(slots: int, run: seq<Step>, s: Manager, p: nat, j: nat, k: nat)
    requires Leads(Create(slots), run, s) && Shape(s) && p < NR_PRI && j < k < |s.ready[p]|
    ensures Add(s.ready[p][j]) in run && Add(s.ready[p][k]) in run
    ensures FirstAt(run, Add(s.ready[p][j])) < FirstAt(run, Add(s.ready[p][k]))
  {
    Told(slots, run, s);
    hide Total, FirstAt, PlacesTell, Owed, Leads;
    assert ListOk(s, p);
    assert WaitsWell(s, p, s.ready[p][j]) && WaitsWell(s, p, s.ready[p][k]);
  }

  /**
   * No task is lost: from its addition until it is finished, a task that nobody cancels waits or is in the run
   * queue, and there it has been started or is about to be.  A finished one is in neither.
   */
  lemma NoneLost(slots: int, run: seq<Step>, s: Manager, t: Task)
    requires Leads(Create(slots), run, s)
    ensures Shape(s)
    ensures Add(t) in run && Cancel(t) !in run && Finish(t) !in run ==> Waits(s, t) || t in s.run
    ensures t in s.run ==> Add(t) in run && Finish(t) !in run
    ensures t in s.run && t !in s.moved ==> StartMoved(t) in run || Cancel(t) in run
    ensures Waits(s, t) ==> Finish(t) !in run
  {
    Told(slots, run, s);
    if Waits(s, t) {
      WaitingIs(s, t);
    }
  }

  /** A task that the run has not added goes to the end of its list; another one is refused. */
  lemma AddGoesLast(slots: int, run: seq<Step>, s: Manager, t: Task)
    requires Leads(Create(slots), run, s) && Shape(s) && t.pri < NR_PRI
    ensures var n := Next(s, Add(t));
      if Add(t) in run then n == s
      else n.ready == s.ready[t.pri := s.ready[t.pri] + [t]] && n.run == s.run && n.moved == s.moved
  {
    Told(slots, run, s);
  }

  /** `t` is more urgent than `x`, or was added first. */
  ghost predicate GoesBefore(run: seq<Step>, t: Task, x: Task) {
    x.pri < t.pri || (x.pri == t.pri && Add(t) in run && Add(x) in run && FirstAt(run, Add(t)) < FirstAt(run, Add(x)))
  }

  /** With a task waiting and a slot free, a balance call takes the task that goes before all others that wait. */
  lemma BalanceTakesTheFirst(slots: int, run: seq<Step>, s: Manager)
    requires Leads(Create(slots), run, s) && Shape(s) && s.pending > 0
    ensures var n := Next(s, Balance);
      if Total(s.ready) == 0 || |s.run| == s.slots then n == s.(pending := s.pending - 1)
      else
        && |n.run| == |s.run| + 1 && n.run[..|s.run|] == s.run && var t := n.run[|s.run|];
        && Waits(s, t) && n.ready == s.ready[t.pri := s.ready[t.pri][1..]] && n.moved == s.moved + {t}
        && forall x :: Waits(s, x) && x != t ==> GoesBefore(run, t, x)
  {
    Told(slots, run, s);
    BalanceMovesTheFirst(slots, run, s);
    BalanceMoves(s);
    if Total(s.ready) > 0 && |s.run| < s.slots {
      hide Next, Inv, Leads, Total, FirstAt, PlacesTell, MarksTell, Owed;
      var t := Next(s, Balance).run[|s.run|];
      forall x | Waits(s, x) && x != t ensures GoesBefore(run, t, x) {
        assert GoesFirst(s, t, x);
      }
    }
  }

  // ----- cancelling

  /** `q` is `was` without the one place where `t` stood. */
  ghost predicate OnlyLost(was: Tasks, q: Tasks, t: Task) {
    exists k :: 0 <= k < |was| && was[k] == t && q == was[..k] + was[k + 1..]
  }

  /**
   * What a cancellation does at once: a waiting task leaves its list, whose other tasks stay in order; a task in
   * the run queue stays there; for any other task nothing changes.
   */
  lemma CancelTakesOut(slots: int, run: seq<Step>, s: Manager, t: Task)
    requires Leads(Create(slots), run, s) && Shape(s) && Enabled(s, Cancel(t))
    ensures var n := Next(s, Cancel(t));
      && n.run == s.run && n.moved == s.moved && n.pending == s.pending && Shape(n)
      && (forall p :: 0 <= p < NR_PRI && p != t.pri ==> n.ready[p] == s.ready[p])
      && (if Waits(s, t) then OnlyLost(s.ready[t.pri], n.ready[t.pri], t) else n.ready == s.ready)
      && (!Waits(s, t) && t !in s.run ==> n == s)
  {
    hide IndexOf, Leads;
    if Waits(s, t) {
      var k := IndexOf(s.ready[t.pri], t);
      assert Next(s, Cancel(t)).ready[t.pri] == s.ready[t.pri][..k] + s.ready[t.pri][k + 1..];
    }
  }

  /** A balance call takes no task that was cancelled or started. */
  lemma UsedIsNotTaken(s: Manager, t: Task)
    requires Inv(s) && Enabled(s, Balance) && t in s.used
    ensures var n := Next(s, Balance);
      t in n.used && (t in n.moved ==> t in s.moved) && (t in n.run ==> t in s.run)
  {
    hide Inv, Next;
    ShapeOf(s);
    BalanceMoves(s);
    var n := Next(s, Balance);
    if n != s.(pending := s.pending - 1) {
      var x :| Waits(s, x) && n.ready == s.ready[x.pri := s.ready[x.pri][1..]] && s.ready[x.pri][0] == x
        && n == s.(ready := n.ready, run := s.run + [x], pending := n.pending, moved := s.moved + {x});
      WaitingIs(s, x);
    }
  }

  /** Started, or cancelled before that: never to be started again. */
  ghost predicate StartIsOver(s: Manager, t: Task) {
    t in s.used && t !in s.moved
  }

  lemma OverAfter(s: Manager, t: Task, step: Step)
    requires Inv(s) && StartIsOver(s, t) && Enabled(s, step)
    ensures StartIsOver(Next(s, step), t) && step != StartMoved(t)
    ensures t !in s.run ==> t !in Next(s, step).run
  {
    hide Total, MostUrgent, IndexOf;
    if step.Balance? {
      UsedIsNotTaken(s, t);
    } else if step.Finish? {
      TakenOut(s.run, step.t);
    }
  }

  lemma {:induction false} OverForGood(s: Manager, t: Task, rest: seq<Step>, u: Manager)
    requires Inv(s) && StartIsOver(s, t) && Leads(s, rest, u)
    ensures Inv(u) && StartIsOver(u, t) && StartMoved(t) !in rest && (t !in s.run ==> t !in u.run)
    decreases |rest|
  {
    hide Inv, Next, StartIsOver;
    if rest != [] {
      StepInv(s, rest[0]);
      OverAfter(s, t, rest[0]);
      OverForGood(Next(s, rest[0]), t, rest[1..], u);
    }
  }

  /** A task cancelled while it waits is never moved or started, whatever follows. */
  lemma CancelledNeverStarts(slots: int, run: seq<Step>, s: Manager, t: Task, rest: seq<Step>, u: Manager)
    requires Leads(Create(slots), run, s) && Shape(s) && Waits(s, t) && Enabled(s, Cancel(t))
    requires Leads(Next(s, Cancel(t)), rest, u)
    ensures StartMoved(t) !in rest
    ensures Shape(u) && t !in u.run && t !in u.moved && forall p :: 0 <= p < NR_PRI ==> t !in u.ready[p]
  {
    hide Leads, Total;
    Told(slots, run, s);
    WaitingIs(s, t);
    StepInv(s, Cancel(t));
    assert StartIsOver(Next(s, Cancel(t)), t) by {
      hide IndexOf;
      if t in s.moved {
        MovedDoesNotWait(s, t);
      }
    }
    OverForGood(Next(s, Cancel(t)), t, rest, u);
    forall p | 0 <= p < NR_PRI ensures t !in u.ready[p] {
      assert ListOk(u, p);
      WaitingTasks(u, p);
    }
  }

  /** A moved task can be started, and no task is started twice. */
  lemma StartedOnce(slots: int, run: seq<Step>, s: Manager, t: Task, rest: seq<Step>, u: Manager)
    requires Leads(Create(slots), run, s) && Shape(s) && t in s.moved
    requires Leads(Next(s, StartMoved(t)), rest, u)
    ensures StartMoved(t) !in run && StartMoved(t) !in rest
    ensures var n := Next(s, StartMoved(t)); n.ready == s.ready && n.run == s.run && n.moved == s.moved - {t}
  {
    hide Leads, Total;
    Told(slots, run, s);
    StepInv(s, StartMoved(t));
    OverForGood(Next(s, StartMoved(t)), t, rest, u);
    CreateInv(slots);
    NotStartedBefore(Create(slots), t, run, s);
  }

  lemma {:induction false} NotStartedBefore(s: Manager, t: Task, run: seq<Step>, u: Manager)
    requires Inv(s) && Leads(s, run, u) && t in u.moved
    ensures StartMoved(t) !in run
    decreases |run|
  {
    hide Inv;
    if run != [] {
      StepInv(s, run[0]);
      if run[0] == StartMoved(t) {
        JustStarted(s, t);
        OverForGood(Next(s, run[0]), t, run[1..], u);
        assert false;
      }
      hide Next;
      NotStartedBefore(Next(s, run[0]), t, run[1..], u);
    }
  }

  lemma JustStarted(s: Manager, t: Task)
    requires Shape(s) && Enabled(s, StartMoved(t))
    ensures StartIsOver(Next(s, StartMoved(t)), t)
  {
  }

  /** A task that finishes leaves the run queue; the others stay there in order, and a balance call is owed. */
  lemma FinishFreesItsSlot(slots: int, run: seq<Step>, s: Manager, t: Task)
    requires Leads(Create(slots), run, s) && Shape(s) && t in s.run && t in s.used
    ensures var n := Next(s, Finish(t));
      OnlyLost(s.run, n.run, t) && t !in n.run && n.ready == s.ready && n.pending == s.pending + 1
  {
    hide IndexOf;
    CreateInv(slots);
    RunInv(Create(slots), run, s);
    hide Leads, Total;
    var k := IndexOf(s.run, t);
    assert Next(s, Finish(t)).run == s.run[..k] + s.run[k + 1..];
    TakenOut(s.run, t);
  }
}
