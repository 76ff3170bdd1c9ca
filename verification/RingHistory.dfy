/** What the readers of the ring buffer get, told from the writer's calls alone. */
module RingHistory {
  import opened RingBuf

  /** The data of the calls of write that a run makes, in order. */
  function Calls(run: seq<Step>): seq<seq<Byte>> {
    if run == [] then []
    else Calls(run[..|run| - 1]) + match run[|run| - 1] case Call(data) => [data] case _ => []
  }

  /** How many of them have come to their end. */
  function Publishes(run: seq<Step>): nat {
    if run == [] then 0 else Publishes(run[..|run| - 1]) + if run[|run| - 1].Publish? then 1 else 0
  }

  lemma OneMore(run: seq<Step>, step: Step)
    ensures Calls(run + [step]) == Calls(run) + match step case Call(data) => [data] case _ => []
    ensures Publishes(run + [step]) == Publishes(run) + if step.Publish? then 1 else 0
  {
    assert (run + [step])[..|run|] == run;
  }

  /** The slots are written in turn. */
  ghost predicate InTurn(s: State)
    requires Shape(s)
  {
    && s.wsi == s.published % |s.slots|
    && (forall i, m :: 0 <= i < |s.slots| && 0 <= m < |s.begun[i]| ==> s.begun[i][m] % |s.slots| == i)
  }

  /** Writes and calls agree. */
  ghost predicate Tells(s: State, run: seq<Step>) {
    && Shape(s)
    && s.published == Publishes(run)
    && |Calls(run)| == s.published + (if s.writer.Idle? then 0 else 1)
    && s.writes == Calls(run)[..|s.writes|]
    && (s.writer.Called? || s.writer.Copying? ==> s.writer.data == Calls(run)[s.published])
    && (s.writer.Copying? ==> forall j :: j in s.writer.left ==> j < s.size)
    && InTurn(s)
  }

  lemma NextInTurn(a: nat, n: nat)
    requires n > 0
    ensures (a % n + 1) % n == (a + 1) % n
  {
    var q, i := a / n, a % n;
    assert a == q * n + i;
    if i + 1 == n {
      RemainderIs(q + 1, n, 0);
      RemainderIs(1, n, 0);
      assert a + 1 == (q + 1) * n;
    } else {
      RemainderIs(q, n, i + 1);
      RemainderIs(0, n, i + 1);
    }
  }

  lemma RemainderIs(q: nat, n: nat, i: nat)
    requires i < n
    ensures (q * n + i) % n == i
  {
    var a := q * n + i;
    var q2, i2 := a / n, a % n;
    assert q2 * n + i2 == q * n + i;
    SameQuotient(q, q2, n, i, i2);
  }

  lemma SameQuotient(q: int, q2: int, n: nat, i: nat, i2: nat)
    requires i < n && i2 < n && q2 * n + i2 == q * n + i
    ensures i2 == i
  {
    Differ(q2, q, n);
    if q2 > q {
      AtLeastOnce(q2 - q, n);
    } else if q2 < q {
      Differ(q, q2, n);
      AtLeastOnce(q - q2, n);
    }
  }

  lemma Differ(a: int, b: int, n: nat)
    ensures (a - b) * n == a * n - b * n
  {
  }

  lemma AtLeastOnce(d: int, n: nat)
    requires d >= 1
    ensures d * n >= n
  {
  }

  lemma InTurnAfter(s: State, step: Step)
    requires Shape(s) && InTurn(s) && Enabled(s, step) && Shape(Next(s, step))
    ensures InTurn(Next(s, step))
  {
    hide Shape, Indices;
    var t := Next(s, step);
    SlotsStay(s, step);
    if step.Publish? {
      NextInTurn(s.published, |s.slots|);
    } else if step.Mark? {
      forall i, m | 0 <= i < |t.slots| && 0 <= m < |t.begun[i]| ensures t.begun[i][m] % |t.slots| == i {
        if i == s.wsi && m == |s.begun[i]| {
          NoneOnTheWay(s);
          assert t.begun[i][m] == s.published;
        } else {
          assert t.begun[i][m] == s.begun[i][m];
        }
      }
    }
  }

  lemma SlotsStay(s: State, step: Step)
    requires Shape(s) && Enabled(s, step)
    ensures |Next(s, step).slots| == |s.slots| >= 2 && |s.begun| == |s.slots|
  {
  }

  lemma NoneOnTheWay(s: State)
    requires Shape(s) && s.writer.Called?
    ensures |s.writes| == s.published
  {
  }

  lemma TellsAfter(s: State, run: seq<Step>, step: Step)
    requires Inv(s) && Tells(s, run) && Enabled(s, step)
    ensures Tells(Next(s, step), run + [step])
  {
    hide Order, SlotOk, ReaderOk, InTurn, Calls, Publishes, Indices;
    StepInv(s, step);
    InTurnAfter(s, step);
    OneMore(run, step);
  }

  lemma {:induction false} RunTells(s: State, before: seq<Step>, run: seq<Step>, t: State)
    requires Inv(s) && Tells(s, before) && Leads(s, run, t)
    ensures Inv(t) && Tells(t, before + run)
    decreases |run|
  {
    hide Inv, Tells, Next, Enabled;
    if run == [] {
      assert before + run == before;
    } else {
      StepInv(s, run[0]);
      TellsAfter(s, before, run[0]);
      assert before + [run[0]] + run[1..] == before + run;
      RunTells(Next(s, run[0]), before + [run[0]], run[1..], t);
    }
  }

  lemma Told(slotnr: nat, size: nat, run: seq<Step>, s: State)
    requires slotnr >= 2 && Leads(Create(slotnr, size), run, s)
    ensures Inv(s) && Tells(s, run) && s.size == size
  {
    hide Leads;
    CreateInv(slotnr, size);
    assert Tells(Create(slotnr, size), []);
    RunTells(Create(slotnr, size), [], run, s);
    assert [] + run == run;
    SizeStays(Create(slotnr, size), run, s);
  }

  lemma {:induction false} SizeStays(s: State, run: seq<Step>, t: State)
    requires Leads(s, run, t)
    ensures t.size == s.size
    decreases |run|
  {
    if run != [] {
      SizeStays(Next(s, run[0]), run[1..], t);
    }
  }

  // ----- an undisturbed read

  /** What was written last and published, or the initial zeros. */
  function LastPublished(size: nat, run: seq<Step>): seq<Byte>
    requires Publishes(run) <= |Calls(run)|
  {
    if Publishes(run) == 0 then Zeros(size) else Calls(run)[Publishes(run) - 1]
  }

  lemma FirstWriteFirstSlot(s: State, run: seq<Step>, i: nat)
    requires Inv(s) && Tells(s, run) && s.published == 0 && i < |s.slots| && s.begun[i] != []
    ensures i == 0
  {
    hide SlotOk, ReaderOk, Calls, Publishes;
    assert s.begun[i][0] < |s.writes| <= 1;
    assert s.begun[i][0] % |s.slots| == i;
  }

  /** The slot that a reader is led to holds it, and the writer is elsewhere. */
  lemma RecentHoldsIt(s: State, run: seq<Step>)
    requires Inv(s) && Tells(s, run)
    ensures Publishes(run) <= |Calls(run)|
    ensures var i := Recent(s); i < |s.slots| && !InWrite(s, i) && s.slots[i].d == LastPublished(s.size, run)
  {
    hide ReaderOk, Calls, Publishes;
    var i := Recent(s);
    assert SlotOk(s, i);
    if s.published == 0 {
      if s.begun[i] != [] {
        FirstWriteFirstSlot(s, run, i);
        assert false;
      }
    } else {
      assert Last(s.begun[i]) == s.published - 1;
    }
  }

  /** Reader `r` is about to get, or has got, `data` from slot `i`. */
  ghost predicate ReadGoesWell(s: State, r: nat, i: nat, data: seq<Byte>) {
    && r in s.readers && i < |s.slots| && !InWrite(s, i) && s.slots[i].d == data && |data| == s.size
    && match s.readers[r]
       case Loaded(slot, _) => slot == i
       case Reading(slot, _, pre, _, buf, left) =>
         && slot == i && pre == s.slots[i].ver && |buf| == s.size
         && (forall j :: j in left ==> j < s.size)
         && (forall j: nat :: j < s.size && j !in left ==> buf[j] == data[j])
       case Accepted(_, buf) => buf == data
       case Refused => false
  }

  /** Outside a write the version is even, and only then. */
  lemma OddIffInWrite(s: State, i: nat)
    requires Inv(s) && i < |s.slots|
    ensures s.slots[i].ver % 2 == 1 <==> InWrite(s, i)
  {
    hide Order, ReaderOk, Expected;
    assert SlotOk(s, i);
    ParityOfRemainder(FullVersion(s, i));
  }

  lemma ParityOfRemainder(full: int)
    ensures full % VER_MOD % 2 == full % 2
  {
  }

  lemma GoesWellAfterReader(s: State, r: nat, i: nat, data: seq<Byte>, step: Step)
    requires Inv(s) && ReadGoesWell(s, r, i, data) && Enabled(s, step) && step != LoadIndex(r)
    requires step.LoadIndex? || step.LoadVersion? || step.CopyOut? || step.CheckVersion?
    ensures ReadGoesWell(Next(s, step), r, i, data)
  {
    OddIffInWrite(s, i);
    hide Inv;
    if step.r == r && step.CheckVersion? {
      var buf := s.readers[r].buf;
      assert buf == data by {
        assert forall j: nat :: j < |buf| ==> buf[j] == data[j];
      }
    }
  }

  lemma GoesWellAfterWriter(s: State, r: nat, i: nat, data: seq<Byte>, step: Step)
    requires Inv(s) && ReadGoesWell(s, r, i, data) && Enabled(s, step) && !(step.Mark? && s.wsi == i)
    requires step.Call? || step.Mark? || step.CopyIn? || step.Unmark? || step.Publish?
    ensures ReadGoesWell(Next(s, step), r, i, data)
  {
    hide Inv;
    var t := Next(s, step);
    assert t.slots[i] == s.slots[i] && t.readers == s.readers;
  }

  /** No write to slot `i` begins. */
  ghost predicate Spares(s: State, run: seq<Step>, i: nat)
    decreases |run|
  {
    run == [] || (Enabled(s, run[0]) ==>
      (run[0].Mark? ==> s.wsi != i) && Spares(Next(s, run[0]), run[1..], i))
  }

  lemma {:induction false} RunGoesWell(s: State, r: nat, i: nat, data: seq<Byte>, run: seq<Step>, t: State)
    requires Inv(s) && ReadGoesWell(s, r, i, data) && Leads(s, run, t) && Spares(s, run, i) && LoadIndex(r) !in run
    ensures Inv(t) && ReadGoesWell(t, r, i, data)
    ensures t.readers[r].Accepted? <==> s.readers[r].Accepted? || CheckVersion(r) in run
    decreases |run|
  {
    hide Inv, ReadGoesWell;
    if run != [] {
      var step := run[0];
      var n := Next(s, step);
      StepInv(s, step);
      if step.LoadIndex? || step.LoadVersion? || step.CopyOut? || step.CheckVersion? {
        GoesWellAfterReader(s, r, i, data, step);
      } else {
        GoesWellAfterWriter(s, r, i, data, step);
      }
      AcceptedAfter(s, r, i, data, step);
      hide Next, Enabled;
      RunGoesWell(n, r, i, data, run[1..], t);
      assert CheckVersion(r) in run <==> step == CheckVersion(r) || CheckVersion(r) in run[1..];
    }
  }

  lemma AcceptedAfter(s: State, r: nat, i: nat, data: seq<Byte>, step: Step)
    requires ReadGoesWell(s, r, i, data) && Enabled(s, step) && step != LoadIndex(r)
    ensures r in s.readers && r in Next(s, step).readers
    ensures Next(s, step).readers[r].Accepted? <==> s.readers[r].Accepted? || step == CheckVersion(r)
  {
  }

  /**
   * A read succeeds unless a write to its slot gets in its way: whatever else the writer and other readers do
   * meanwhile, it is never refused, and it ends with the data published last before it began, or with the initial
   * zeros if there were none.
   */
  lemma ReadSucceeds(slotnr: nat, size: nat, before: seq<Step>, s: State, r: nat, rest: seq<Step>, t: State)
    requires slotnr >= 2 && Leads(Create(slotnr, size), before, s) && Enabled(s, LoadIndex(r))
    requires Leads(Next(s, LoadIndex(r)), rest, t) && LoadIndex(r) !in rest
    requires Spares(Next(s, LoadIndex(r)), rest, Recent(s))
    ensures Publishes(before) <= |Calls(before)| && r in t.readers && !t.readers[r].Refused?
    ensures t.readers[r].Accepted? <==> CheckVersion(r) in rest
    ensures t.readers[r].Accepted? ==> t.readers[r].buf == LastPublished(size, before)
  {
    var data := ReadBegins(slotnr, size, before, s, r);
    hide Inv, Leads, Spares, Calls, Publishes;
    RunGoesWell(Next(s, LoadIndex(r)), r, Recent(s), data, rest, t);
  }

  lemma ReadBegins(slotnr: nat, size: nat, before: seq<Step>, s: State, r: nat) returns (data: seq<Byte>)
    requires slotnr >= 2 && Leads(Create(slotnr, size), before, s) && Enabled(s, LoadIndex(r))
    ensures Publishes(before) <= |Calls(before)| && data == LastPublished(size, before)
    ensures var n := Next(s, LoadIndex(r)); Inv(n) && n.readers[r].Loaded? && ReadGoesWell(n, r, Recent(s), data)
  {
    Told(slotnr, size, before, s);
    RecentHoldsIt(s, before);
    StepInv(s, LoadIndex(r));
    data := LastPublished(size, before);
    hide SlotOk, ReaderOk, Order, Leads, Calls, Publishes;
    assert |s.slots[Recent(s)].d| == s.size;
  }

  /** A version is refused exactly while its slot is being written. */
  lemma RefusedIffInWrite(slotnr: nat, size: nat, run: seq<Step>, s: State, r: nat, junk: seq<Byte>)
    requires slotnr >= 2 && Leads(Create(slotnr, size), run, s) && Enabled(s, LoadVersion(r, junk))
    ensures Next(s, LoadVersion(r, junk)).readers[r].Refused? <==> InWrite(s, s.readers[r].slot)
  {
    Told(slotnr, size, run, s);
    OddIffInWrite(s, s.readers[r].slot);
  }

  // ----- a read on its own comes to its end

  predicate StepOf(step: Step, r: nat) {
    (step.LoadVersion? || step.CopyOut? || step.CheckVersion?) && step.r == r
  }

  /** How many steps a reader has before it. */
  function ToDo(s: State, rd: Reader): nat {
    match rd
    case Loaded(_, _) => s.size + 2
    case Reading(_, _, _, _, _, left) => |left| + 1
    case _ => 0
  }

  lemma {:induction false} SizeOfIndices(n: nat)
    ensures |Indices(n)| == n
  {
    if n > 0 {
      SizeOfIndices(n - 1);
    }
  }

  lemma InvShape(s: State)
    requires Inv(s)
    ensures Shape(s)
  {
  }

  lemma NextOf(s: State, r: nat, i: nat, data: seq<Byte>) returns (step: Step)
    requires Inv(s) && ReadGoesWell(s, r, i, data) && !s.readers[r].Accepted?
    ensures StepOf(step, r) && Enabled(s, step) && r in Next(s, step).readers
    ensures ToDo(Next(s, step), Next(s, step).readers[r]) + 1 == ToDo(s, s.readers[r])
  {
    hide Inv, Indices;
    var rd := s.readers[r];
    InvShape(s);
    if rd.Loaded? {
      step := LoadVersion(r, Zeros(s.size));
      OddIffInWrite(s, i);
      SizeOfIndices(s.size);
    } else if rd.left == {} {
      step := CheckVersion(r);
    } else {
      var j :| j in rd.left;
      step := CopyOut(r, j);
      assert |rd.left - {j}| == |rd.left| - 1;
    }
  }

  lemma {:induction false} ReadAlone(s: State, r: nat, i: nat, data: seq<Byte>) returns (run: seq<Step>, t: State)
    requires Inv(s) && ReadGoesWell(s, r, i, data)
    ensures Leads(s, run, t) && |run| == ToDo(s, s.readers[r]) && forall x :: x in run ==> StepOf(x, r)
    ensures r in t.readers && t.readers[r].Accepted? && t.readers[r].buf == data
    decreases ToDo(s, s.readers[r])
  {
    if s.readers[r].Accepted? {
      run, t := [], s;
    } else {
      var step := NextOf(s, r, i, data);
      var n := Next(s, step);
      StepInv(s, step);
      GoesWellAfterReader(s, r, i, data, step);
      hide Inv, ReadGoesWell, Next, Enabled, ToDo;
      var rest;
      rest, t := ReadAlone(n, r, i, data);
      run := [step] + rest;
      assert run[1..] == rest;
    }
  }

  /** Left to itself, a read that has begun is accepted after `size + 2` more steps of its own. */
  lemma ReadFinishes(slotnr: nat, size: nat, before: seq<Step>, s: State, r: nat) returns (rest: seq<Step>, t: State)
    requires slotnr >= 2 && Leads(Create(slotnr, size), before, s) && Enabled(s, LoadIndex(r))
    ensures Leads(Next(s, LoadIndex(r)), rest, t) && |rest| == size + 2 && forall x :: x in rest ==> StepOf(x, r)
    ensures Publishes(before) <= |Calls(before)|
    ensures r in t.readers && t.readers[r].Accepted? && t.readers[r].buf == LastPublished(size, before)
  {
    var data := ReadBegins(slotnr, size, before, s, r);
    Told(slotnr, size, before, s);
    hide Inv, Leads, ReadGoesWell, Calls, Publishes;
    rest, t := ReadAlone(Next(s, LoadIndex(r)), r, Recent(s), data);
  }

  // ----- the writer never waits

  predicate IsWriterStep(step: Step) {
    step.Call? || step.Mark? || step.CopyIn? || step.Unmark? || step.Publish?
  }

  /** How many steps the writer has before it inside a call. */
  function ToWrite(s: State): nat {
    match s.writer
    case Idle => 0
    case Called(_) => s.size + 3
    case Copying(_, left) => |left| + 2
    case Copied => 1
  }

  lemma NextOfWriter(s: State, run: seq<Step>) returns (step: Step)
    requires Inv(s) && Tells(s, run) && s.writer != Idle
    ensures IsWriterStep(step) && !step.Call? && Enabled(s, step) && ToWrite(Next(s, step)) + 1 == ToWrite(s)
  {
    hide Inv, Calls, Publishes, Indices, InTurn;
    InvShape(s);
    if s.writer.Called? {
      step := Mark;
      SizeOfIndices(s.size);
    } else if s.writer.Copied? {
      step := Publish;
    } else if s.writer.left == {} {
      step := Unmark;
    } else {
      var j :| j in s.writer.left;
      step := CopyIn(j);
      assert |s.writer.left - {j}| == |s.writer.left| - 1;
    }
  }

  /** To the end of a call, by the writer alone. */
  lemma {:induction false} WriteAlone(s: State, before: seq<Step>) returns (run: seq<Step>, t: State)
    requires Inv(s) && Tells(s, before)
    ensures Leads(s, run, t) && t.writer == Idle && |run| == ToWrite(s) && forall x :: x in run ==> IsWriterStep(x)
    ensures Calls(before + run) == Calls(before)
    decreases ToWrite(s)
  {
    hide Inv, Tells, Next, Enabled, Calls;
    if s.writer == Idle {
      run, t := [], s;
      assert before + run == before;
    } else {
      var step := NextOfWriter(s, before);
      var n := Next(s, step);
      StepInv(s, step);
      TellsAfter(s, before, step);
      OneMore(before, step);
      var rest;
      rest, t := WriteAlone(n, before + [step]);
      run := [step] + rest;
      assert run[1..] == rest;
      assert before + [step] + rest == before + run;
    }
  }

  /**
   * An idle writer can write at any time, whatever the readers do: the call is over after `size + 4` steps of its
   * own, and its data is then what a read gets.
   */
  lemma WriteFinishes(slotnr: nat, size: nat, before: seq<Step>, s: State, data: seq<Byte>)
    returns (run: seq<Step>, t: State)
    requires slotnr >= 2 && Leads(Create(slotnr, size), before, s) && s.writer == Idle && |data| == size
    ensures Leads(s, run, t) && t.writer == Idle && |run| == size + 4 && forall x :: x in run ==> IsWriterStep(x)
    ensures var all := before + run; Publishes(all) <= |Calls(all)| && LastPublished(size, all) == data
  {
    hide Inv, Tells, Leads, Calls, Publishes, Next, Enabled, Create;
    Told(slotnr, size, before, s);
    var n := WriteBegins(s, before, data);
    var rest;
    rest, t := WriteAlone(n, before + [Call(data)]);
    run := [Call(data)] + rest;
    LeadsFirst(s, Call(data), rest, t);
    LeadsConcat(Create(slotnr, size), before, s, run, t);
    assert before + [Call(data)] + rest == before + run;
    Told(slotnr, size, before + run, t);
    LastIsData(t, before + run, Calls(before), data);
  }

  lemma WriteBegins(s: State, before: seq<Step>, data: seq<Byte>) returns (n: State)
    requires Inv(s) && Tells(s, before) && s.writer == Idle && |data| == s.size
    ensures Enabled(s, Call(data)) && n == Next(s, Call(data)) && ToWrite(n) == s.size + 3
    ensures Inv(n) && Tells(n, before + [Call(data)]) && Calls(before + [Call(data)]) == Calls(before) + [data]
  {
    hide Order, SlotOk, ReaderOk, Calls, Publishes, InTurn;
    n := Next(s, Call(data));
    StepInv(s, Call(data));
    TellsAfter(s, before, Call(data));
    OneMore(before, Call(data));
  }

  lemma LastIsData(t: State, run: seq<Step>, calls: seq<seq<Byte>>, data: seq<Byte>)
    requires Tells(t, run) && t.writer == Idle && Calls(run) == calls + [data]
    ensures Publishes(run) <= |Calls(run)| && LastPublished(t.size, run) == data
  {
    hide Calls, Publishes, InTurn, Shape;
  }

  lemma LeadsFirst(s: State, step: Step, rest: seq<Step>, t: State)
    requires Enabled(s, step) && Leads(Next(s, step), rest, t)
    ensures Leads(s, [step] + rest, t)
  {
    hide Next, Enabled;
    assert ([step] + rest)[1..] == rest;
  }

  /** A reader that is not in the middle of a read can begin one. */
  lemma CanBegin(slotnr: nat, size: nat, run: seq<Step>, s: State, r: nat)
    requires slotnr >= 2 && Leads(Create(slotnr, size), run, s)
    requires r !in s.readers || s.readers[r].Accepted? || s.readers[r].Refused?
    ensures Enabled(s, LoadIndex(r))
  {
    CreateInv(slotnr, size);
    RunInv(Create(slotnr, size), run, s);
  }

  // ----- any accepted read

  /** The reader has in mind how many writes were published when it looked. */
  ghost predicate Looked(s: State, r: nat, n: nat) {
    r in s.readers && (s.readers[r].Refused? || s.readers[r].published == n)
  }

  lemma {:induction false} RunLooked(s: State, r: nat, n: nat, run: seq<Step>, t: State)
    requires Looked(s, r, n) && Leads(s, run, t) && LoadIndex(r) !in run
    ensures Looked(t, r, n)
    decreases |run|
  {
    if run != [] {
      RunLooked(Next(s, run[0]), r, n, run[1..], t);
    }
  }

  /** `buf` is what some call wrote, the `from`th or a later one. */
  ghost predicate WrittenSince(run: seq<Step>, from: int, buf: seq<Byte>) {
    exists w :: from <= w < |Calls(run)| && 0 <= w && Calls(run)[w] == buf
  }

  /**
   * In every interleaving, an accepted read holds what one call wrote, the last one published when the read began
   * or a later one; or the initial zeros, when none had been published by then.
   */
  lemma AcceptedIsFresh(slotnr: nat, size: nat, before: seq<Step>, s: State, r: nat, rest: seq<Step>, t: State)
    requires slotnr >= 2 && Leads(Create(slotnr, size), before, s) && Enabled(s, LoadIndex(r))
    requires Leads(Next(s, LoadIndex(r)), rest, t) && LoadIndex(r) !in rest
    requires Enabled(t, CheckVersion(r)) && FewWrites(t, t.readers[r])
    requires Next(t, CheckVersion(r)).readers[r].Accepted?
    ensures var buf := Next(t, CheckVersion(r)).readers[r].buf;
      || (Publishes(before) == 0 && buf == Zeros(size))
      || WrittenSince(before + [LoadIndex(r)] + rest, Publishes(before) - 1, buf)
  {
    hide Inv, Leads, Calls, Publishes, Zeros, Create, SlotOk, ReaderOk;
    Told(slotnr, size, before, s);
    var n, all := Next(s, LoadIndex(r)), before + [LoadIndex(r)] + rest;
    Joined(Create(slotnr, size), before, s, LoadIndex(r), rest, t);
    Told(slotnr, size, all, t);
    assert Looked(n, r, s.published);
    RunLooked(n, r, s.published, rest, t);
    AcceptedReadIsOneWrite(slotnr, size, all, t, r);
    var rd, buf := t.readers[r], Next(t, CheckVersion(r)).readers[r].buf;
    if w :| rd.published - 1 <= w < |t.writes| && w in t.begun[rd.slot] && buf == t.writes[w] {
      assert Calls(all)[w] == buf;
    }
  }

  lemma Joined(s: State, before: seq<Step>, m: State, step: Step, rest: seq<Step>, t: State)
    requires Leads(s, before, m) && Enabled(m, step) && Leads(Next(m, step), rest, t)
    ensures Leads(s, before + [step] + rest, t)
  {
    hide Leads;
    LeadsOne(s, before, m, step);
    LeadsConcat(s, before + [step], Next(m, step), rest, t);
  }
}
