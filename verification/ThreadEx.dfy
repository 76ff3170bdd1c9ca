/**
 * The life of a background thread as a step system: callers that start and cancel it, the worker,
 * and the owner's message queue.  The state lock is modelled; the worker's first look at the state
 * and the owner's updates go without it, as in the code.
 */
module ThreadEx {

  datatype State = Ready | Started | Cancelling | Cancelled | Done | Terminated | TerminatedCancelled

  /** Messages posted to the owner, which are also the callbacks it then makes. */
  datatype Message = OnStarted | OnDone | OnCancelling(started: bool) | OnCancelled

  /** Who holds the state lock, and how far it has got. */
  datatype Lock = Free | Starting | StartPosting | SyncPosting | CancelPosting(started: bool)

  datatype Worker = Absent | Spawned | Running | Cleanup | Posting(last: Message) | Exited | Crashed

  datatype Owner = Idle | After(m: Message) | PostingCancelled

  datatype Thread = Thread(
    state: State, lock: Lock, worker: Worker, owner: Owner, queue: seq<Message>, delivered: seq<Message>)

  const Create := Thread(Ready, Free, Absent, Idle, [], [])

  datatype Step =
    | StartCall | SyncCall | CancelCall
    | CreateThread(ok: bool) | PostStarted | PostCancelling
    | WorkerLook | WorkerReturn | WorkerCleanup | WorkerPost
    | OwnerTake | OwnerFinish

  predicate IsCall(step: Step) {
    step.StartCall? || step.SyncCall? || step.CancelCall?
  }

  predicate Enabled(s: Thread, step: Step) {
    match step
    case StartCall => s.lock == Free
    case SyncCall => s.lock == Free
    case CancelCall => s.lock == Free
    case CreateThread(_) => s.lock == Starting
    case PostStarted => s.lock == StartPosting || s.lock == SyncPosting
    case PostCancelling => s.lock.CancelPosting?
    case WorkerLook => s.worker == Spawned
    case WorkerReturn => s.worker == Running
    case WorkerCleanup => s.worker == Cleanup && s.lock == Free
    case WorkerPost => s.worker.Posting?
    case OwnerTake => s.owner == Idle && s.queue != []
    case OwnerFinish => s.owner != Idle
  }

  function Next(s: Thread, step: Step): Thread
    requires Enabled(s, step)
  {
    match step
    case StartCall =>
      // refused unless ready
      if s.state != Ready then s else s.(state := Started, lock := Starting)
    case SyncCall =>
      if s.state != Ready then s else s.(state := Started, lock := SyncPosting)
    case CancelCall =>
      if s.state != Ready && s.state != Started then s
      else s.(state := Cancelling, lock := CancelPosting(s.state == Started))
    case CreateThread(ok) =>
      if ok then s.(worker := Spawned, lock := StartPosting) else s.(state := Ready, lock := Free)
    case PostStarted =>
      // a synchronous start goes on as the worker itself
      s.(queue := s.queue + [OnStarted], lock := Free, worker := if s.lock == SyncPosting then Spawned else s.worker)
    case PostCancelling =>
      s.(queue := s.queue + [OnCancelling(s.lock.started)], lock := Free)
    case WorkerLook =>
      s.(worker := if s.state == Started then Running else if s.state == Cancelling then Cleanup else Crashed)
    case WorkerReturn =>
      s.(worker := Cleanup)
    case WorkerCleanup =>
      if s.state == Cancelling then s.(state := Cancelled, worker := Posting(OnCancelled))
      else if s.state == Started then s.(state := Done, worker := Posting(OnDone))
      else s.(worker := Crashed)
    case WorkerPost =>
      s.(queue := s.queue + [s.worker.last], worker := Exited)
    case OwnerTake =>
      s.(queue := s.queue[1..], delivered := s.delivered + [s.queue[0]], owner := After(s.queue[0]))
    case OwnerFinish =>
      match s.owner {
        case After(OnDone) => s.(state := Terminated, owner := Idle)
        case After(OnCancelled) => s.(state := TerminatedCancelled, owner := Idle)
        case After(OnCancelling(started)) =>
          if started then s.(owner := Idle) else s.(state := Cancelled, owner := PostingCancelled)
        case PostingCancelled => s.(queue := s.queue + [OnCancelled], owner := Idle)
        case _ => s.(owner := Idle)
      }
  }

  // ----- what every step keeps

  /** Everything posted so far, delivered or not, in order. */
  function Posted(s: Thread): seq<Message> {
    s.delivered + s.queue
  }

  ghost predicate AtWork(w: Worker) {
    w == Spawned || w == Running || w == Cleanup
  }

  /** For each state: who may be doing what, and which messages have been posted. */
  ghost predicate Inv(s: Thread) {
    && (match s.state
        case Ready =>
          s.lock == Free && s.worker == Absent && Posted(s) == []
        case Started =>
          || ((s.lock == Starting || s.lock == SyncPosting) && s.worker == Absent && Posted(s) == [])
          || (s.lock == StartPosting && AtWork(s.worker) && Posted(s) == [])
          || (s.lock == Free && AtWork(s.worker) && Posted(s) == [OnStarted])
        case Cancelling =>
          || (s.lock == CancelPosting(true) && AtWork(s.worker) && Posted(s) == [OnStarted])
          || (s.lock == Free && AtWork(s.worker) && Posted(s) == [OnStarted, OnCancelling(true)])
          || (s.lock == CancelPosting(false) && s.worker == Absent && Posted(s) == [])
          || (s.lock == Free && s.worker == Absent && Posted(s) == [OnCancelling(false)])
        case Cancelled =>
          && s.lock == Free
          && ( || (s.worker == Posting(OnCancelled) && Posted(s) == [OnStarted, OnCancelling(true)])
               || (s.worker == Exited && Posted(s) == [OnStarted, OnCancelling(true), OnCancelled])
               || (s.worker == Absent && s.owner == PostingCancelled && Posted(s) == [OnCancelling(false)])
               || (s.worker == Absent && s.delivered != [] && Posted(s) == [OnCancelling(false), OnCancelled]))
        case Done =>
          && s.lock == Free
          && ( || (s.worker == Posting(OnDone) && Posted(s) == [OnStarted])
               || (s.worker == Exited && Posted(s) == [OnStarted, OnDone]))
        case Terminated =>
          s.lock == Free && s.worker == Exited && s.owner == Idle && s.queue == [] && Posted(s) == [OnStarted, OnDone]
        case TerminatedCancelled =>
          && s.lock == Free && s.owner == Idle && s.queue == []
          && ( || (s.worker == Exited && Posted(s) == [OnStarted, OnCancelling(true), OnCancelled])
               || (s.worker == Absent && Posted(s) == [OnCancelling(false), OnCancelled])))
    && OwnerFits(s)
  }

  /** The owner works on the message it delivered last, and nobody else cancels a thread never started. */
  ghost predicate OwnerFits(s: Thread) {
    && (s.owner.After? ==> s.delivered != [] && s.owner.m == s.delivered[|s.delivered| - 1])
    && (s.owner == After(OnCancelling(false)) ==> s.state == Cancelling)
    && (s.owner == PostingCancelled ==> s.delivered == [OnCancelling(false)] && s.queue == [] && s.state == Cancelled)
    && (s.owner == Idle && OnDone in s.delivered ==> s.state == Terminated)
    && (s.owner == Idle && OnCancelled in s.delivered ==> s.state == TerminatedCancelled)
    && (s.owner == Idle && OnCancelling(false) in s.delivered ==>
          s.state == Cancelled || s.state == TerminatedCancelled)
  }

  lemma CreateInv()
    ensures Inv(Create)
  {
  }

  lemma DeliveredIsPrefix(s: Thread)
    ensures |s.delivered| <= |Posted(s)|
    ensures forall i :: 0 <= i < |s.delivered| ==> s.delivered[i] == Posted(s)[i]
    ensures forall i :: 0 <= i < |s.queue| ==> s.queue[i] == Posted(s)[|s.delivered| + i]
  {
  }

  lemma CallInv(s: Thread, step: Step)
    requires Inv(s) && Enabled(s, step) && (IsCall(step) || step.CreateThread?)
    ensures Inv(Next(s, step))
  {
    var t := Next(s, step);
    assert Posted(t) == Posted(s);
    DeliveredIsPrefix(s);
  }

  lemma CallerPostInv(s: Thread, step: Step)
    requires Inv(s) && Enabled(s, step) && (step.PostStarted? || step.PostCancelling?)
    ensures Inv(Next(s, step))
  {
    var t := Next(s, step);
    var m := if step.PostStarted? then OnStarted else OnCancelling(s.lock.started);
    assert Posted(t) == Posted(s) + [m];
    DeliveredIsPrefix(s);
  }

  lemma WorkerStepInv(s: Thread, step: Step)
    requires Inv(s) && Enabled(s, step)
    requires step.WorkerLook? || step.WorkerReturn? || step.WorkerCleanup? || step.WorkerPost?
    ensures Inv(Next(s, step))
  {
    var t := Next(s, step);
    DeliveredIsPrefix(s);
    DeliveredIsPrefix(t);
    if step.WorkerPost? {
      assert Posted(t) == Posted(s) + [s.worker.last];
    } else {
      assert Posted(t) == Posted(s);
    }
  }

  /** Taking a message moves it from one half of what was posted to the other. */
  lemma TakeKeepsPosted(s: Thread)
    requires s.queue != []
    ensures s.delivered + [s.queue[0]] + s.queue[1..] == Posted(s)
    ensures s.queue[0] == Posted(s)[|s.delivered|]
  {
  }

  lemma OwnerTakeInv(s: Thread)
    requires Inv(s) && Enabled(s, OwnerTake)
    ensures Inv(Next(s, OwnerTake))
  {
    hide Posted;
    var t := Next(s, OwnerTake);
    assert Posted(t) == Posted(s) by {
      TakeKeepsPosted(s);
      PostedIs(t);
    }
    assert s.queue[0] == Posted(s)[|s.delivered|] by {
      TakeKeepsPosted(s);
    }
    PostedIs(s);
  }

  lemma PostedIs(s: Thread)
    ensures Posted(s) == s.delivered + s.queue
    ensures s.queue == [] ==> Posted(s) == s.delivered
  {
  }

  lemma OwnerFinishInv(s: Thread)
    requires Inv(s) && Enabled(s, OwnerFinish) && s.owner.After?
    ensures Inv(Next(s, OwnerFinish))
  {
    var t := Next(s, OwnerFinish);
    DeliveredIsPrefix(s);
    assert Posted(t) == Posted(s);
    var n := |s.delivered|;
    assert s.owner.m == Posted(s)[n - 1];
    assert |s.queue| == |Posted(s)| - n;
  }

  lemma OwnerPostsInv(s: Thread)
    requires Inv(s) && s.owner == PostingCancelled
    ensures Inv(Next(s, OwnerFinish))
  {
    var t := Next(s, OwnerFinish);
    assert Posted(t) == Posted(s) + [OnCancelled];
  }

  lemma StepInv(s: Thread, step: Step)
    requires Inv(s) && Enabled(s, step)
    ensures Inv(Next(s, step))
  {
    hide Inv;
    if step.OwnerTake? {
      OwnerTakeInv(s);
    } else if step.OwnerFinish? {
      if s.owner == PostingCancelled {
        OwnerPostsInv(s);
      } else {
        OwnerFinishInv(s);
      }
    } else if step.WorkerLook? || step.WorkerReturn? || step.WorkerCleanup? || step.WorkerPost? {
      WorkerStepInv(s, step);
    } else if step.PostStarted? || step.PostCancelling? {
      CallerPostInv(s, step);
    } else {
      CallInv(s, step);
    }
  }

  // ----- whole runs

  ghost predicate Leads(s: Thread, run: seq<Step>, t: Thread)
    decreases |run|
  {
    if run == [] then s == t else Enabled(s, run[0]) && Leads(Next(s, run[0]), run[1..], t)
  }

  lemma {:induction false} RunInv(s: Thread, run: seq<Step>, t: Thread)
    requires Inv(s) && Leads(s, run, t)
    ensures Inv(t)
    decreases |run|
  {
    if run != [] {
      StepInv(s, run[0]);
      RunInv(Next(s, run[0]), run[1..], t);
    }
  }

  const NORMAL := [OnStarted, OnDone]
  const CANCELLED_LATE := [OnStarted, OnCancelling(true), OnCancelled]
  const CANCELLED_EARLY := [OnCancelling(false), OnCancelled]

  /** In every run, what the owner has called back is a prefix of one of the three documented orders. */
  lemma CallbackOrder(run: seq<Step>, s: Thread)
    requires Leads(Create, run, s)
    ensures s.delivered <= NORMAL || s.delivered <= CANCELLED_LATE || s.delivered <= CANCELLED_EARLY
  {
    CreateInv();
    RunInv(Create, run, s);
    DeliveredIsPrefix(s);
  }

  /** The worker never meets a state it is not written for. */
  lemma WorkerNeverCrashes(run: seq<Step>, s: Thread)
    requires Leads(Create, run, s)
    ensures s.worker != Crashed
  {
    CreateInv();
    RunInv(Create, run, s);
  }

  /** The arrows of the documented state diagram. */
  predicate Arrow(from: State, to: State) {
    || (from == Ready && (to == Started || to == Cancelling))
    || (from == Started && (to == Cancelling || to == Done))
    || (from == Cancelling && to == Cancelled)
    || (from == Done && to == Terminated)
    || (from == Cancelled && to == TerminatedCancelled)
  }

  /** The worker reports with the lock free, and the owner ends what the worker or a caller reported. */
  lemma StepFollowsDiagram(s: Thread, step: Step)
    requires Inv(s) && Enabled(s, step)
    ensures var t := Next(s, step);
      || s.state == t.state
      || Arrow(s.state, t.state)
      || (step == CreateThread(false) && s.state == Started && t.state == Ready)
  {
    if step.OwnerFinish? && s.owner.After? {
      DeliveredIsPrefix(s);
      LastDelivered(s);
    }
  }

  /** The message the owner works on tells in which state the thread is. */
  lemma LastDelivered(s: Thread)
    requires Inv(s) && s.owner.After?
    ensures s.owner.m == OnDone ==> s.state == Done
    ensures s.owner.m == OnCancelled ==> s.state == Cancelled
    ensures s.owner.m == OnCancelling(false) ==> s.state == Cancelling
  {
    DeliveredIsPrefix(s);
    var n := |s.delivered|;
    assert s.owner.m == Posted(s)[n - 1];
  }

  /**
   * The state moves along the arrows only.  There is one way back that the diagram does not show:
   * when the thread cannot be created, the caller that set Started, and still holds the lock, takes it back.
   */
  lemma StateFollowsDiagram(run: seq<Step>, s: Thread, step: Step)
    requires Leads(Create, run, s) && Enabled(s, step)
    ensures var t := Next(s, step);
      || s.state == t.state
      || Arrow(s.state, t.state)
      || (step == CreateThread(false) && s.state == Started && t.state == Ready)
  {
    hide Inv, Enabled, Next, Leads;
    CreateInv();
    RunInv(Create, run, s);
    StepFollowsDiagram(s, step);
  }

  /** Nothing but a new call can happen. */
  ghost predicate AtRest(s: Thread) {
    forall step: Step :: Enabled(s, step) ==> IsCall(step)
  }

  /** What stands still at rest. */
  lemma NobodyWorks(s: Thread)
    requires AtRest(s)
    ensures s.lock == Free && (s.worker == Absent || s.worker == Exited || s.worker == Crashed)
    ensures s.owner == Idle && s.queue == []
  {
    assert !Enabled(s, CreateThread(true)) && !Enabled(s, PostStarted) && !Enabled(s, PostCancelling);
    assert !Enabled(s, WorkerLook) && !Enabled(s, WorkerReturn);
    assert !Enabled(s, WorkerCleanup) && !Enabled(s, WorkerPost);
    assert !Enabled(s, OwnerFinish) && !Enabled(s, OwnerTake);
  }

  /** A thread at rest was never touched, or has ended with one of the complete orders of callbacks. */
  lemma RestIsComplete(run: seq<Step>, s: Thread)
    requires Leads(Create, run, s) && AtRest(s)
    ensures || (s.state == Ready && s.delivered == [])
            || (s.state == Terminated && s.delivered == NORMAL)
            || (s.state == TerminatedCancelled && (s.delivered == CANCELLED_LATE || s.delivered == CANCELLED_EARLY))
  {
    hide Inv, Leads, AtRest, Next;
    CreateInv();
    RunInv(Create, run, s);
    NobodyWorks(s);
    WorkerNeverCrashes(run, s);
    RestOf(s);
  }

  lemma RestOf(s: Thread)
    requires Inv(s) && s.queue == [] && s.owner == Idle && (s.worker == Absent || s.worker == Exited) && s.lock == Free
    ensures || (s.state == Ready && s.delivered == [])
            || (s.state == Terminated && s.delivered == NORMAL)
            || (s.state == TerminatedCancelled && (s.delivered == CANCELLED_LATE || s.delivered == CANCELLED_EARLY))
  {
    assert Posted(s) == s.delivered;
    if s.state == Cancelled || s.state == Done || s.state == Cancelling {
      assert s.delivered[|s.delivered| - 1] in s.delivered;
    }
  }

  // ----- what comes of a thread, read off the calls made and what the worker did

  /**
   * The history of a thread as a caller would tell it, without looking inside: not started, being created,
   * begun, running the user's function, returned from it, finished; or cancelled after a start (`ran` says
   * whether the worker had entered the user's function by then) or before any.
   */
  datatype Fate = Untouched | Creating | Begun | InFunction | Returned | Finished | Late(ran: bool) | Early

  function FateAfter(f: Fate, step: Step): Fate {
    match f
    case Untouched =>
      if step.StartCall? then Creating else if step.SyncCall? then Begun else if step.CancelCall? then Early else f
    case Creating =>
      if step == CreateThread(true) then Begun else if step == CreateThread(false) then Untouched else f
    case Begun =>
      if step.WorkerLook? then InFunction else if step.CancelCall? then Late(false) else f
    case InFunction =>
      if step.WorkerReturn? then Returned else if step.CancelCall? then Late(true) else f
    case Returned =>
      if step.WorkerCleanup? then Finished else if step.CancelCall? then Late(true) else f
    case Finished => f
    case Late(_) => f
    case Early => f
  }

  function FateFrom(f: Fate, run: seq<Step>): Fate
    decreases |run|
  {
    if run == [] then f else FateFrom(FateAfter(f, run[0]), run[1..])
  }

  /** Each fate leaves its mark on the state. */
  ghost predicate Shows(s: Thread, f: Fate) {
    match f
    case Untouched => s.state == Ready
    case Creating => s.state == Started && s.lock == Starting
    case Begun => s.state == Started && s.lock != Starting && (s.worker == Absent || s.worker == Spawned)
    case InFunction => s.state == Started && s.worker == Running
    case Returned => s.state == Started && s.worker == Cleanup
    case Finished => s.state == Done || s.state == Terminated
    case Late(_) => CancelUnderWay(s) && (s.lock == CancelPosting(true) || [OnStarted] <= Posted(s))
    case Early => CancelUnderWay(s) && (s.lock == CancelPosting(false) || [OnCancelling(false)] <= Posted(s))
  }

  ghost predicate CancelUnderWay(s: Thread) {
    s.state == Cancelling || s.state == Cancelled || s.state == TerminatedCancelled
  }

  lemma ShowsAfterCall(s: Thread, f: Fate, step: Step)
    requires Inv(s) && Shows(s, f) && Enabled(s, step) && (IsCall(step) || step.CreateThread?)
    ensures Shows(Next(s, step), FateAfter(f, step))
  {
    assert Posted(Next(s, step)) == Posted(s);
  }

  /** What has been posted stays posted. */
  lemma PostedGrows(s: Thread, step: Step)
    requires Enabled(s, step)
    ensures Posted(s) <= Posted(Next(s, step))
  {
    var t := Next(s, step);
    if step.OwnerTake? {
      TakeKeepsPosted(s);
    } else {
      assert t.delivered == s.delivered && s.queue <= t.queue;
    }
  }

  lemma ShowsAfterPost(s: Thread, f: Fate, step: Step)
    requires Inv(s) && Shows(s, f) && Enabled(s, step) && (step.PostStarted? || step.PostCancelling?)
    ensures Shows(Next(s, step), FateAfter(f, step))
  {
    PostedGrows(s, step);
    var m := if step.PostStarted? then OnStarted else OnCancelling(s.lock.started);
    assert Posted(Next(s, step)) == Posted(s) + [m];
  }

  lemma ShowsAfterWorker(s: Thread, f: Fate, step: Step)
    requires Inv(s) && Shows(s, f) && Enabled(s, step)
    requires step.WorkerLook? || step.WorkerReturn? || step.WorkerCleanup? || step.WorkerPost?
    ensures Shows(Next(s, step), FateAfter(f, step))
  {
    PostedGrows(s, step);
  }

  lemma ShowsAfterOwner(s: Thread, f: Fate, step: Step)
    requires Inv(s) && Shows(s, f) && Enabled(s, step) && (step.OwnerTake? || step.OwnerFinish?)
    ensures Shows(Next(s, step), FateAfter(f, step))
  {
    PostedGrows(s, step);
    if s.owner.After? {
      LastDelivered(s);
    }
  }

  lemma ShowsAfter(s: Thread, f: Fate, step: Step)
    requires Inv(s) && Shows(s, f) && Enabled(s, step)
    ensures Shows(Next(s, step), FateAfter(f, step))
  {
    hide Inv, Shows, Next, FateAfter;
    if step.OwnerTake? || step.OwnerFinish? {
      ShowsAfterOwner(s, f, step);
    } else if step.WorkerLook? || step.WorkerReturn? || step.WorkerCleanup? || step.WorkerPost? {
      ShowsAfterWorker(s, f, step);
    } else if step.PostStarted? || step.PostCancelling? {
      ShowsAfterPost(s, f, step);
    } else {
      ShowsAfterCall(s, f, step);
    }
  }

  lemma {:induction false} RunShows(s: Thread, f: Fate, run: seq<Step>, t: Thread)
    requires Inv(s) && Shows(s, f) && Leads(s, run, t)
    ensures Shows(t, FateFrom(f, run))
    decreases |run|
  {
    hide Inv, Shows, Next, FateAfter;
    if run != [] {
      StepInv(s, run[0]);
      ShowsAfter(s, f, run[0]);
      RunShows(Next(s, run[0]), FateAfter(f, run[0]), run[1..], t);
    }
  }

  /** The callbacks that a fate leads to. */
  function Callbacks(f: Fate): seq<Message> {
    match f
    case Finished => NORMAL
    case Late(_) => CANCELLED_LATE
    case Early => CANCELLED_EARLY
    case _ => []
  }

  /**
   * At rest the callbacks made are all those of the thread's fate, and none but an untouched, a finished and
   * a cancelled thread is at rest.
   */
  lemma RestIsFate(run: seq<Step>, s: Thread)
    requires Leads(Create, run, s) && AtRest(s)
    ensures var f := FateFrom(Untouched, run);
      && (f == Untouched || f == Finished || f.Late? || f == Early)
      && s.delivered == Callbacks(f)
  {
    hide Inv, Shows, Leads, AtRest, Next, FateFrom;
    CreateInv();
    RunInv(Create, run, s);
    UntouchedAtFirst();
    RunShows(Create, Untouched, run, s);
    NobodyWorks(s);
    WorkerNeverCrashes(run, s);
    FateOfRest(s, FateFrom(Untouched, run));
  }

  lemma UntouchedAtFirst()
    ensures Shows(Create, Untouched)
  {
  }

  lemma FateOfRest(s: Thread, f: Fate)
    requires Inv(s) && Shows(s, f)
    requires s.queue == [] && s.owner == Idle && (s.worker == Absent || s.worker == Exited) && s.lock == Free
    ensures (f == Untouched || f == Finished || f.Late? || f == Early) && s.delivered == Callbacks(f)
  {
    RestOf(s);
    PostedIs(s);
    hide Inv, Posted;
    assert CANCELLED_LATE[0] == OnStarted && CANCELLED_EARLY[0] == OnCancelling(false);
  }

  lemma {:induction false} FateConcat(f: Fate, a: seq<Step>, b: seq<Step>)
    ensures FateFrom(f, a + b) == FateFrom(FateFrom(f, a), b)
    decreases |a|
  {
    if a == [] {
      assert a + b == b;
    } else {
      assert (a + b)[1..] == a[1..] + b;
      FateConcat(FateAfter(f, a[0]), a[1..], b);
    }
  }

  lemma {:induction false} LeadsConcat(s: Thread, a: seq<Step>, m: Thread, b: seq<Step>, t: Thread)
    requires Leads(s, a, m) && Leads(m, b, t)
    ensures Leads(s, a + b, t)
    decreases |a|
  {
    hide Next, Enabled;
    if a == [] {
      assert a + b == b;
    } else {
      assert (a + b)[1..] == a[1..] + b;
      LeadsConcat(Next(s, a[0]), a[1..], m, b, t);
    }
  }

  lemma LeadsFirst(s: Thread, step: Step, rest: seq<Step>, t: Thread)
    requires Enabled(s, step) && Leads(Next(s, step), rest, t)
    ensures Leads(s, [step] + rest, t)
  {
    hide Next, Enabled;
    assert ([step] + rest)[1..] == rest;
  }

  /** A cancelled or finished thread stays that. */
  lemma {:induction false} FateIsSealed(f: Fate, run: seq<Step>)
    requires f.Finished? || f.Late? || f.Early?
    ensures FateFrom(f, run) == f
    decreases |run|
  {
    if run != [] {
      FateIsSealed(f, run[1..]);
    }
  }

  /**
   * Whatever happened before and whatever follows: a cancellation of a started thread ends in exactly the
   * late callbacks, one of a thread never started in the early ones, and any other is refused.
   */
  lemma CancelCancels(before: seq<Step>, s: Thread, rest: seq<Step>, t: Thread)
    requires Leads(Create, before, s) && s.lock == Free
    requires Leads(Next(s, CancelCall), rest, t) && AtRest(t)
    ensures s.state == Started ==> t.delivered == CANCELLED_LATE
    ensures s.state == Ready ==> t.delivered == CANCELLED_EARLY
    ensures s.state != Started && s.state != Ready ==> Next(s, CancelCall) == s
  {
    hide Inv, Leads, AtRest, FateFrom;
    CreateInv();
    RunInv(Create, before, s);
    RunShows(Create, Untouched, before, s);
    var f := FateFrom(Untouched, before);
    LeadsFirst(s, CancelCall, rest, t);
    LeadsConcat(Create, before, s, [CancelCall] + rest, t);
    FateConcat(Untouched, before, [CancelCall] + rest);
    RestIsFate(before + ([CancelCall] + rest), t);
    var g := FateAfter(f, CancelCall);
    FateFirst(f, CancelCall, rest);
    if g.Late? || g.Early? || g.Finished? {
      FateIsSealed(g, rest);
    }
  }

  lemma FateFirst(f: Fate, step: Step, rest: seq<Step>)
    ensures FateFrom(f, [step] + rest) == FateFrom(FateAfter(f, step), rest)
  {
    assert ([step] + rest)[1..] == rest;
  }

  /** A started thread that nobody cancels goes towards its end. */
  lemma {:induction false} BegunFinishes(f: Fate, run: seq<Step>)
    requires f == Begun || f == InFunction || f == Returned || f == Finished
    requires CancelCall !in run
    ensures var g := FateFrom(f, run); g == Begun || g == InFunction || g == Returned || g == Finished
    decreases |run|
  {
    if run != [] {
      assert run[0] in run;
      BegunFinishes(FateAfter(f, run[0]), run[1..]);
    }
  }

  /**
   * Whatever happened before: a ready thread that is started, by a new thread or by the caller itself, and that
   * nobody cancels comes to rest only when it is done.
   */
  lemma StartRuns(before: seq<Step>, s: Thread, start: seq<Step>, m: Thread, rest: seq<Step>, t: Thread)
    requires Leads(Create, before, s) && s.state == Ready
    requires start == [SyncCall] || start == [StartCall, CreateThread(true)]
    requires Leads(s, start, m) && Leads(m, rest, t) && AtRest(t) && CancelCall !in rest
    ensures t.delivered == NORMAL
  {
    hide Inv, Leads, AtRest, FateFrom, Next;
    CreateInv();
    RunShows(Create, Untouched, before, s);
    ReadyIsUntouched(s, FateFrom(Untouched, before));
    LeadsConcat(s, start, m, rest, t);
    LeadsConcat(Create, before, s, start + rest, t);
    FateConcat(Untouched, before, start + rest);
    FateConcat(Untouched, start, rest);
    StartBegins(start);
    BegunFinishes(Begun, rest);
    RestIsFate(before + (start + rest), t);
  }

  lemma ReadyIsUntouched(s: Thread, f: Fate)
    requires Shows(s, f) && s.state == Ready
    ensures f == Untouched
  {
  }

  lemma StartBegins(start: seq<Step>)
    requires start == [SyncCall] || start == [StartCall, CreateThread(true)]
    ensures FateFrom(Untouched, start) == Begun
  {
    assert start[1..] == if |start| == 1 then [] else [CreateThread(true)];
    assert [CreateThread(true)][1..] == [];
  }

  /** A ready thread can be started: nobody holds its lock. */
  lemma CanStart(before: seq<Step>, s: Thread)
    requires Leads(Create, before, s) && s.state == Ready
    ensures Enabled(s, SyncCall) && exists m :: Leads(s, [SyncCall], m)
    ensures Enabled(s, StartCall) && exists m :: Leads(s, [StartCall, CreateThread(true)], m)
  {
    CreateInv();
    RunInv(Create, before, s);
    var m1 := Next(s, StartCall);
    var m2 := Next(m1, CreateThread(true));
    NoSteps(m2);
    LeadsFirst(m1, CreateThread(true), [], m2);
    LeadsFirst(s, StartCall, [CreateThread(true)], m2);
    NoSteps(Next(s, SyncCall));
    LeadsFirst(s, SyncCall, [], Next(s, SyncCall));
    hide Leads, Next;
    assert [CreateThread(true)] + [] == [CreateThread(true)];
    assert [StartCall] + [CreateThread(true)] == [StartCall, CreateThread(true)];
    assert [SyncCall] + [] == [SyncCall];
  }

  lemma NoSteps(s: Thread)
    ensures Leads(s, [], s)
  {
  }

  /** No cancellation is taken while the thread is ready or started. */
  ghost predicate Uncancelled(s: Thread, run: seq<Step>)
    decreases |run|
  {
    run == [] || (Enabled(s, run[0]) ==>
      (run[0].CancelCall? ==> s.state != Ready && s.state != Started) && Uncancelled(Next(s, run[0]), run[1..]))
  }

  lemma {:induction false} UncancelledFate(s: Thread, f: Fate, run: seq<Step>, t: Thread)
    requires Inv(s) && Shows(s, f) && Leads(s, run, t) && !f.Late? && !f.Early?
    ensures var g := FateFrom(f, run); Uncancelled(s, run) <==> !g.Late? && !g.Early?
    decreases |run|
  {
    if run != [] {
      hide Inv;
      StepInv(s, run[0]);
      ShowsAfter(s, f, run[0]);
      var g := FateAfter(f, run[0]);
      if g.Late? || g.Early? {
        FateIsSealed(g, run[1..]);
      } else {
        hide Next;
        UncancelledFate(Next(s, run[0]), g, run[1..], t);
      }
    }
  }

  /** A thread at rest has been cancelled in time, has run to its end, or was never touched. */
  lemma DoneUnlessCancelled(run: seq<Step>, s: Thread)
    requires Leads(Create, run, s) && AtRest(s)
    ensures Uncancelled(Create, run) <==> s.delivered == NORMAL || s.delivered == []
  {
    hide Leads, AtRest, FateFrom, Uncancelled, Next;
    CreateInv();
    UncancelledFate(Create, Untouched, run, s);
    RestIsFate(run, s);
    hide Inv;
    assert NORMAL[0] == OnStarted && |NORMAL| == 2;
  }

  // ----- the user's function

  /** Whether the user's function has returned, given the fate and where the worker is. */
  ghost predicate ReturnFits(s: Thread, f: Fate, returned: bool) {
    match f
    case Untouched => !returned
    case Creating => !returned
    case Begun => !returned
    case InFunction => !returned
    case Returned => returned
    case Finished => returned
    case Late(ran) =>
      if s.worker == Running then ran && !returned
      else if s.worker == Spawned then !ran && !returned
      else returned == ran
    case Early => !returned && s.worker == Absent
  }

  lemma ReturnFitsAfter(s: Thread, f: Fate, returned: bool, step: Step)
    requires Inv(s) && Shows(s, f) && ReturnFits(s, f, returned) && Enabled(s, step)
    ensures ReturnFits(Next(s, step), FateAfter(f, step), returned || step == WorkerReturn)
  {
    hide Posted, OwnerFits;
  }

  lemma {:induction false} RunReturns(s: Thread, f: Fate, returned: bool, run: seq<Step>, t: Thread)
    requires Inv(s) && Shows(s, f) && ReturnFits(s, f, returned) && Leads(s, run, t)
    ensures ReturnFits(t, FateFrom(f, run), returned || WorkerReturn in run)
    decreases |run|
  {
    hide Inv, Shows, Next, FateAfter, ReturnFits;
    if run != [] {
      StepInv(s, run[0]);
      ShowsAfter(s, f, run[0]);
      ReturnFitsAfter(s, f, returned, run[0]);
      RunReturns(Next(s, run[0]), FateAfter(f, run[0]), returned || run[0] == WorkerReturn, run[1..], t);
      assert WorkerReturn in run <==> run[0] == WorkerReturn || WorkerReturn in run[1..];
    }
  }

  /**
   * The owner is told "done" only of a thread whose function has returned.  At rest the function has run to its
   * end exactly in a thread that finished, or that was cancelled after the worker had entered it.
   */
  lemma DoneMeansReturned(run: seq<Step>, s: Thread)
    requires Leads(Create, run, s)
    ensures OnDone in Posted(s) ==> WorkerReturn in run
    ensures AtRest(s) ==> var f := FateFrom(Untouched, run);
      (WorkerReturn in run <==> f == Finished || f == Late(true))
  {
    hide Leads, AtRest, FateFrom, Next;
    CreateInv();
    RunInv(Create, run, s);
    RunShows(Create, Untouched, run, s);
    RunReturns(Create, Untouched, false, run, s);
    if AtRest(s) {
      NobodyWorks(s);
      RestIsFate(run, s);
    }
  }

  // ----- every thread comes to rest

  function MessageWork(m: Message): nat {
    if m == OnCancelling(false) then 5 else 2
  }

  function QueueWork(q: seq<Message>): nat {
    if q == [] then 0 else QueueWork(q[..|q| - 1]) + MessageWork(q[|q| - 1])
  }

  lemma {:induction false} QueueWorkFirst(q: seq<Message>)
    requires q != []
    ensures QueueWork(q) == MessageWork(q[0]) + QueueWork(q[1..])
  {
    if |q| > 1 {
      QueueWorkFirst(q[..|q| - 1]);
      assert q[..|q| - 1][1..] == q[1..][..|q| - 2];
    }
  }

  /** How many steps are left at most, as long as nobody calls. */
  function Work(s: Thread): nat {
    (match s.lock case Free => 0 case Starting => 10 case StartPosting => 3 case SyncPosting => 9
       case CancelPosting(st) => if st then 3 else 6)
    + (match s.worker case Spawned => 6 case Running => 5 case Cleanup => 4 case Posting(m) => 1 + MessageWork(m)
       case _ => 0)
    + (match s.owner case Idle => 0 case After(m) => MessageWork(m) - 1 case PostingCancelled => 3)
    + QueueWork(s.queue)
  }

  lemma QueueWorkAdd(q: seq<Message>, m: Message)
    ensures QueueWork(q + [m]) == QueueWork(q) + MessageWork(m)
  {
    assert (q + [m])[..|q|] == q;
  }

  lemma StepDoesWork(s: Thread, step: Step)
    requires Enabled(s, step) && !IsCall(step)
    ensures Work(Next(s, step)) < Work(s)
  {
    hide QueueWork;
    if step.OwnerTake? {
      QueueWorkFirst(s.queue);
    } else if step.WorkerPost? {
      QueueWorkAdd(s.queue, s.worker.last);
    } else if step.PostStarted? {
      QueueWorkAdd(s.queue, OnStarted);
    } else if step.PostCancelling? {
      QueueWorkAdd(s.queue, OnCancelling(s.lock.started));
    } else if step.OwnerFinish? {
      QueueWorkAdd(s.queue, OnCancelled);
    }
  }
}
