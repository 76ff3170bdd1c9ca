/**
 * The priority message queue as a step system.  Any number of threads enqueue and dequeue; what they
 * do under the lock is one step, and the writes to and reads from the semaphore are steps of their own.
 */
module MsgQ {
  import opened Basics
  import opened Queues

  const NR_PRI := 5

  const UNLIMITED := 0xffffffff

  type Thread = nat

  datatype Msg = Msg(id: nat, pri: nat, invalid: bool)

  /**
   * `tokens` is the semaphore.  `posting` are the threads that have enqueued and have yet to post,
   * `holding` those that have taken a token and have yet to dequeue.  `sent` and `received` are
   * history: for each priority the messages enqueued and the messages dequeued, in order.
   */
  datatype Queue = Queue(q: seq<seq<Msg>>, sz: nat, capacity: nat, tokens: nat, posting: set<Thread>,
    holding: set<Thread>, sent: seq<seq<Msg>>, received: seq<seq<Msg>>, starved: bool)

  function Empty(): seq<seq<Msg>> {
    seq(NR_PRI, _ => [])
  }

  function Create(capacity: int): Queue {
    Queue(Empty(), 0, if capacity <= 0 then UNLIMITED else capacity, 0, {}, {}, Empty(), Empty(), false)
  }

  /** What an enqueue answers. */
  function EnqueueResult(s: Queue, m: Msg): int {
    if m.invalid || NR_PRI <= m.pri then -EINVAL else if s.sz >= s.capacity then -EAGAIN else 0
  }

  /** The first list from `i` on that has a message. */
  function FirstFrom(q: seq<seq<Msg>>, i: nat): (r: nat)
    requires i <= |q|
    ensures i <= r <= |q| && (forall j :: i <= j < r ==> q[j] == []) && (r < |q| ==> q[r] != [])
    decreases |q| - i
  {
    if i == |q| || q[i] != [] then i else FirstFrom(q, i + 1)
  }

  datatype Step = Enqueue(t: Thread, m: Msg) | Post(t: Thread) | Wait(t: Thread) | Dequeue(t: Thread)

  predicate Enabled(s: Queue, step: Step) {
    match step
    case Enqueue(t, _) => t !in s.posting && t !in s.holding
    case Post(t) => t in s.posting
    case Wait(t) => t !in s.posting && t !in s.holding && s.tokens > 0
    case Dequeue(t) => t in s.holding
  }

  function Next(s: Queue, step: Step): Queue
    requires Enabled(s, step) && |s.q| == NR_PRI && |s.sent| == NR_PRI && |s.received| == NR_PRI
  {
    match step
    case Enqueue(t, m) =>
      if EnqueueResult(s, m) != 0 then s
      else s.(q := s.q[m.pri := s.q[m.pri] + [m]], sz := s.sz + 1, posting := s.posting + {t},
              sent := s.sent[m.pri := s.sent[m.pri] + [m]])
    case Post(t) =>
      s.(tokens := s.tokens + 1, posting := s.posting - {t})
    case Wait(t) =>
      s.(tokens := s.tokens - 1, holding := s.holding + {t})
    case Dequeue(t) =>
      var i := FirstFrom(s.q, 0);
      if i == NR_PRI then s.(holding := s.holding - {t}, starved := true)
      else s.(q := s.q[i := s.q[i][1..]], sz := if s.sz == 0 then UNLIMITED else s.sz - 1, holding := s.holding - {t},
              received := s.received[i := s.received[i] + [s.q[i][0]]])
  }

  // ----- what every step keeps

  /** For one priority: nothing lost, made up, or out of order. */
  ghost predicate InOrder(s: Queue, p: nat)
    requires p < |s.q| == |s.sent| == |s.received|
  {
    s.sent[p] == s.received[p] + s.q[p] && forall k :: 0 <= k < |s.q[p]| ==> s.q[p][k].pri == p
  }

  ghost predicate Shape(s: Queue) {
    |s.q| == NR_PRI && |s.sent| == NR_PRI && |s.received| == NR_PRI
  }

  /** Tokens, consumers that hold one and producers that owe one make up the size of the queue. */
  ghost predicate Inv(s: Queue) {
    && Shape(s)
    && s.sz == Total(s.q) && s.sz <= s.capacity
    && s.tokens + |s.holding| + |s.posting| == s.sz
    && (forall p :: 0 <= p < NR_PRI ==> InOrder(s, p))
    && !s.starved
  }

  lemma CreateInv(capacity: int)
    ensures Inv(Create(capacity))
  {
    NothingInTotal(Empty());
  }

  lemma AddThread(a: set<Thread>, t: Thread)
    requires t !in a
    ensures |a + {t}| == |a| + 1
  {
  }

  lemma DropThread(a: set<Thread>, t: Thread)
    requires t in a
    ensures |a - {t}| == |a| - 1
  {
  }

  lemma EnqueueInv(s: Queue, t: Thread, m: Msg)
    requires Inv(s) && Enabled(s, Enqueue(t, m))
    ensures Inv(Next(s, Enqueue(t, m)))
  {
    hide Total, FirstFrom;
    if EnqueueResult(s, m) == 0 {
      var n := Next(s, Enqueue(t, m));
      TotalUpdate(s.q, m.pri, s.q[m.pri] + [m]);
      AddThread(s.posting, t);
      forall p | 0 <= p < NR_PRI ensures InOrder(n, p) {
        assert InOrder(s, p);
      }
    }
  }

  /** A consumer that holds a token finds a message. */
  lemma SomethingThere(s: Queue, t: Thread)
    requires Inv(s) && t in s.holding
    ensures FirstFrom(s.q, 0) < NR_PRI
  {
    DropThread(s.holding, t);
    if FirstFrom(s.q, 0) == NR_PRI {
      NothingInTotal(s.q);
    }
  }

  lemma DequeueInv(s: Queue, t: Thread)
    requires Inv(s) && Enabled(s, Dequeue(t))
    ensures Inv(Next(s, Dequeue(t)))
  {
    SomethingThere(s, t);
    hide Total;
    var i, n := FirstFrom(s.q, 0), Next(s, Dequeue(t));
    TotalUpdate(s.q, i, s.q[i][1..]);
    DropThread(s.holding, t);
    forall p | 0 <= p < NR_PRI ensures InOrder(n, p) {
      assert InOrder(s, p);
    }
  }

  lemma StepInv(s: Queue, step: Step)
    requires Inv(s) && Enabled(s, step)
    ensures Inv(Next(s, step))
  {
    hide Total, FirstFrom;
    if step.Enqueue? {
      EnqueueInv(s, step.t, step.m);
    } else if step.Dequeue? {
      DequeueInv(s, step.t);
    } else {
      var n := Next(s, step);
      if step.Post? {
        DropThread(s.posting, step.t);
      } else {
        AddThread(s.holding, step.t);
      }
      forall p | 0 <= p < NR_PRI ensures InOrder(n, p) {
        assert InOrder(s, p);
      }
    }
  }

  // ----- whole runs

  ghost predicate Leads(s: Queue, run: seq<Step>, t: Queue)
    decreases |run|
  {
    if run == [] then s == t
    else Shape(s) && Enabled(s, run[0]) && Leads(Next(s, run[0]), run[1..], t)
  }

  lemma {:induction false} RunInv(s: Queue, run: seq<Step>, t: Queue)
    requires Inv(s) && Leads(s, run, t)
    ensures Inv(t)
    decreases |run|
  {
    hide Total, FirstFrom;
    if run != [] {
      StepInv(s, run[0]);
      RunInv(Next(s, run[0]), run[1..], t);
    }
  }

  /** No dequeue ever comes back empty-handed, and the semaphore balances the queue. */
  lemma NeverStarved(capacity: int, run: seq<Step>, s: Queue)
    requires Leads(Create(capacity), run, s)
    ensures !s.starved && s.tokens + |s.holding| + |s.posting| == s.sz == Total(s.q)
  {
    CreateInv(capacity);
    RunInv(Create(capacity), run, s);
  }

  /** From `s` to `n`, `m` was received: it is the oldest not yet received, and nothing more urgent is left. */
  ghost predicate Takes(s: Queue, n: Queue, m: Msg) {
    && Shape(s) && m.pri < NR_PRI
    && |s.received[m.pri]| < |s.sent[m.pri]| && s.sent[m.pri][|s.received[m.pri]|] == m
    && (forall j :: 0 <= j < m.pri ==> s.received[j] == s.sent[j])
    && n.received == s.received[m.pri := s.received[m.pri] + [m]] && n.sent == s.sent
  }

  /** A dequeue takes the oldest message of the highest priority there is. */
  lemma HighestThenOldest(capacity: int, run: seq<Step>, s: Queue, t: Thread)
    requires Leads(Create(capacity), run, s) && t in s.holding && Shape(s)
    ensures exists m :: Takes(s, Next(s, Dequeue(t)), m)
  {
    CreateInv(capacity);
    RunInv(Create(capacity), run, s);
    SomethingThere(s, t);
    hide Total, Leads;
    var i := FirstFrom(s.q, 0);
    var m := s.q[i][0];
    assert InOrder(s, i);
    forall j | 0 <= j < i ensures s.received[j] == s.sent[j] {
      assert InOrder(s, j);
    }
    assert Takes(s, Next(s, Dequeue(t)), m);
  }

  /** The messages received of one priority are the first ones sent. */
  lemma FifoPerPriority(capacity: int, run: seq<Step>, s: Queue, p: nat)
    requires Leads(Create(capacity), run, s) && p < NR_PRI
    ensures Shape(s) && s.received[p] <= s.sent[p]
  {
    CreateInv(capacity);
    RunInv(Create(capacity), run, s);
    assert InOrder(s, p);
  }

  /** A waiting consumer is held up only while all that is queued is spoken for or about to be posted. */
  lemma NoLostWakeup(capacity: int, run: seq<Step>, s: Queue, t: Thread)
    requires Leads(Create(capacity), run, s) && t !in s.posting && t !in s.holding
    ensures Enabled(s, Wait(t)) <==> s.sz > |s.holding| + |s.posting|
  {
    CreateInv(capacity);
    RunInv(Create(capacity), run, s);
  }

  /** The semaphore's counter stays within the capacity: posting never blocks. */
  lemma TokensWithinCapacity(capacity: int, run: seq<Step>, s: Queue)
    requires Leads(Create(capacity), run, s)
    ensures s.tokens <= s.sz <= s.capacity == Create(capacity).capacity
  {
    CreateInv(capacity);
    RunInv(Create(capacity), run, s);
    CapacityStays(Create(capacity), run, s);
  }

  lemma {:induction false} CapacityStays(s: Queue, run: seq<Step>, t: Queue)
    requires Leads(s, run, t)
    ensures t.capacity == s.capacity
    decreases |run|
  {
    if run != [] {
      CapacityStays(Next(s, run[0]), run[1..], t);
    }
  }

  // ----- what is accepted, read off the run

  /** How many messages the queue may hold. */
  function CapacityOf(capacity: int): nat {
    if capacity <= 0 then 0xffff_ffff else capacity
  }

  predicate Sendable(m: Msg) {
    !m.invalid && m.pri < NR_PRI
  }

  /** The messages accepted in a run less those received: each dequeue receives one. */
  function Held(cap: nat, run: seq<Step>): int {
    if run == [] then 0
    else
      var last, before := run[|run| - 1], run[..|run| - 1];
      match last
      case Enqueue(_, m) => Held(cap, before) + if Sendable(m) && Held(cap, before) < cap then 1 else 0
      case Dequeue(_) => Held(cap, before) - 1
      case _ => Held(cap, before)
  }

  /** The messages of one priority that a run sends, in order: those that find room. */
  function SentOf(cap: nat, run: seq<Step>, p: nat): seq<Msg> {
    if run == [] then []
    else
      var last, before := run[|run| - 1], run[..|run| - 1];
      SentOf(cap, before, p) +
      if last.Enqueue? && Sendable(last.m) && last.m.pri == p && Held(cap, before) < cap then [last.m] else []
  }

  function Dequeues(run: seq<Step>): nat {
    if run == [] then 0 else Dequeues(run[..|run| - 1]) + if run[|run| - 1].Dequeue? then 1 else 0
  }

  /** The state tells what the run did. */
  ghost predicate Tells(s: Queue, cap: nat, run: seq<Step>) {
    && Shape(s) && s.capacity == cap && s.sz == Held(cap, run)
    && (forall p :: 0 <= p < NR_PRI ==> s.sent[p] == SentOf(cap, run, p))
    && Total(s.received) == Dequeues(run)
  }

  lemma HeldOneMore(cap: nat, run: seq<Step>, step: Step)
    ensures Held(cap, run + [step]) ==
      match step
      case Enqueue(_, m) => Held(cap, run) + if Sendable(m) && Held(cap, run) < cap then 1 else 0
      case Dequeue(_) => Held(cap, run) - 1
      case _ => Held(cap, run)
    ensures Dequeues(run + [step]) == Dequeues(run) + if step.Dequeue? then 1 else 0
  {
    assert (run + [step])[..|run|] == run;
  }

  lemma SentOneMore(cap: nat, run: seq<Step>, step: Step, p: nat)
    ensures SentOf(cap, run + [step], p) == SentOf(cap, run, p) +
      if step.Enqueue? && Sendable(step.m) && step.m.pri == p && Held(cap, run) < cap then [step.m] else []
  {
    assert (run + [step])[..|run|] == run;
  }

  lemma OneReceived(s: Queue, t: Thread)
    requires Inv(s) && Enabled(s, Dequeue(t))
    ensures var n := Next(s, Dequeue(t));
      Total(n.received) == Total(s.received) + 1 && n.sz == s.sz - 1 && n.sent == s.sent && n.capacity == s.capacity
  {
    SomethingThere(s, t);
    hide Total, FirstFrom, InOrder;
    DropThread(s.holding, t);
    var i := FirstFrom(s.q, 0);
    TotalUpdate(s.received, i, s.received[i] + [s.q[i][0]]);
  }

  lemma TellsAfter(s: Queue, cap: nat, run: seq<Step>, step: Step)
    requires Inv(s) && Tells(s, cap, run) && Enabled(s, step)
    ensures Tells(Next(s, step), cap, run + [step])
  {
    hide Total, Held, SentOf, Dequeues, FirstFrom, InOrder;
    var n := Next(s, step);
    HeldOneMore(cap, run, step);
    if step.Dequeue? {
      OneReceived(s, step.t);
    }
    forall p | 0 <= p < NR_PRI ensures n.sent[p] == SentOf(cap, run + [step], p) {
      SentOneMore(cap, run, step, p);
    }
  }

  lemma {:induction false} RunTells(s: Queue, cap: nat, before: seq<Step>, run: seq<Step>, t: Queue)
    requires Inv(s) && Tells(s, cap, before) && Leads(s, run, t)
    ensures Tells(t, cap, before + run)
    decreases |run|
  {
    hide Inv, Tells, Next;
    if run == [] {
      assert before + run == before;
    } else {
      StepInv(s, run[0]);
      TellsAfter(s, cap, before, run[0]);
      assert before + [run[0]] + run[1..] == before + run;
      RunTells(Next(s, run[0]), cap, before + [run[0]], run[1..], t);
    }
  }

  lemma NothingToTell(capacity: int)
    ensures Tells(Create(capacity), CapacityOf(capacity), [])
  {
    NothingInTotal(Empty());
  }

  /**
   * In every interleaving: what was sent of each priority are the messages of the run that found room, in order;
   * what is held are those less one for each dequeue; and nothing is received but by a dequeue.
   */
  lemma SentIsWhatFoundRoom(capacity: int, run: seq<Step>, s: Queue)
    requires Leads(Create(capacity), run, s)
    ensures var cap := CapacityOf(capacity);
      && Shape(s) && s.sz == Held(cap, run) == Total(s.sent) - Dequeues(run)
      && (forall p :: 0 <= p < NR_PRI ==> s.sent[p] == SentOf(cap, run, p))
      && Total(s.received) == Dequeues(run)
  {
    hide Leads, Held, SentOf, Dequeues, Total;
    CreateInv(capacity);
    NothingToTell(capacity);
    RunInv(Create(capacity), run, s);
    RunTells(Create(capacity), CapacityOf(capacity), [], run, s);
    assert [] + run == run;
    forall p | 0 <= p < NR_PRI ensures s.sent[p] == s.received[p] + s.q[p] {
      assert InOrder(s, p);
    }
    TotalSplits(s.sent, s.received, s.q);
  }

  /** Lists that are each made of two have as many elements as both. */
  lemma {:induction false} TotalSplits<T>(all: seq<seq<T>>, a: seq<seq<T>>, b: seq<seq<T>>)
    requires |all| == |a| == |b| && forall p :: 0 <= p < |all| ==> all[p] == a[p] + b[p]
    ensures Total(all) == Total(a) + Total(b)
  {
    if all != [] {
      var n := |all| - 1;
      assert all[n] == a[n] + b[n];
      TotalSplits(all[..n], a[..n], b[..n]);
    }
  }

  /**
   * What an enqueue answers in any reachable state: -EINVAL exactly to a message that is not valid or has no
   * priority of its own, -EAGAIN exactly to another one that finds the queue full, 0 to the rest; and only
   * an accepted message changes anything.
   */
  lemma EnqueueAnswers(capacity: int, run: seq<Step>, s: Queue, t: Thread, m: Msg)
    requires Leads(Create(capacity), run, s) && Shape(s) && t !in s.posting && t !in s.holding
    ensures var cap, r, n := CapacityOf(capacity), EnqueueResult(s, m), Next(s, Enqueue(t, m));
      && (r == -EINVAL <==> m.invalid || m.pri >= NR_PRI)
      && (r == -EAGAIN <==> !m.invalid && m.pri < NR_PRI && Held(cap, run) >= cap)
      && (r == 0 <==> !m.invalid && m.pri < NR_PRI && Held(cap, run) < cap)
      && (r != 0 ==> n == s)
      && (r == 0 ==> n.q[m.pri] == s.q[m.pri] + [m] && t in n.posting)
  {
    hide Leads, Held, SentOf, Dequeues, Total;
    CreateInv(capacity);
    NothingToTell(capacity);
    RunTells(Create(capacity), CapacityOf(capacity), [], run, s);
    assert [] + run == run;
  }

  // ----- everything is received

  /** How many steps are left at most, as long as nobody enqueues. */
  function Work(s: Queue): nat {
    3 * |s.posting| + 2 * s.tokens + |s.holding|
  }

  lemma StepDoesWork(s: Queue, step: Step)
    requires Shape(s) && Enabled(s, step) && !step.Enqueue?
    ensures Work(Next(s, step)) < Work(s)
  {
    hide FirstFrom;
    if step.Post? {
      DropThread(s.posting, step.t);
    } else if step.Wait? {
      AddThread(s.holding, step.t);
    } else {
      DropThread(s.holding, step.t);
    }
  }

  /** Nothing but an enqueue can happen. */
  ghost predicate AtRest(s: Queue) {
    forall step: Step :: Enabled(s, step) ==> step.Enqueue?
  }

  /** When nothing but a new enqueue can happen, all that was accepted has been received, in order. */
  lemma RestIsEmpty(capacity: int, run: seq<Step>, s: Queue)
    requires Leads(Create(capacity), run, s) && AtRest(s)
    ensures Shape(s) && s.sz == 0 && s.received == s.sent
  {
    CreateInv(capacity);
    RunInv(Create(capacity), run, s);
    hide Leads;
    forall t ensures t !in s.posting && t !in s.holding {
      assert !Enabled(s, Post(t)) && !Enabled(s, Dequeue(t));
    }
    assert s.posting == {} && s.holding == {};
    assert !Enabled(s, Wait(0));
    forall p | 0 <= p < NR_PRI ensures s.received[p] == s.sent[p] {
      assert InOrder(s, p);
      EmptyInTotal(s.q, p);
    }
  }

  lemma {:induction false} EmptyInTotal<T>(q: seq<seq<T>>, p: nat)
    requires Total(q) == 0 && p < |q|
    ensures q[p] == []
  {
    if p < |q| - 1 {
      EmptyInTotal(q[..|q| - 1], p);
    }
  }
}
