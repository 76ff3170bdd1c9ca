/**
 * The lock-free ring buffer as a step system: one writer, any number of readers, and copies that
 * move one byte at a time, in any order.
 */
module RingBuf {

  type Byte = x: int | 0 <= x < 256

  /** Versions are unsigned 32-bit numbers and wrap around. */
  const VER_MOD := 0x1_0000_0000

  datatype Slot = Slot(ver: nat, d: seq<Byte>)

  /** Where the writer stands inside a call, with the bytes it still has to copy. */
  datatype Writer =
    | Idle
    | Called(data: seq<Byte>)
    | Copying(data: seq<Byte>, left: set<nat>)
    | Copied

  /**
   * Where a reader stands.  `published` counts the writes published when it loaded the write index,
   * `begun` the writes that had hit its slot when it loaded the version.
   */
  datatype Reader =
    | Loaded(slot: nat, published: nat)
    | Reading(slot: nat, published: nat, pre: nat, begun: nat, buf: seq<Byte>, left: set<nat>)
    | Accepted(published: nat, buf: seq<Byte>)
    | Refused

  /**
   * `writes` lists the data of every write begun, `published` says how many of them are out, and
   * `begun[i]` lists which writes hit slot `i`.  None of the three exists in the C code.
   */
  datatype State = State(
    size: nat,
    slots: seq<Slot>,
    wsi: nat,
    writer: Writer,
    readers: map<nat, Reader>,
    writes: seq<seq<Byte>>,
    published: nat,
    begun: seq<seq<nat>>)

  function Zeros(size: nat): seq<Byte> {
    seq(size, _ => 0)
  }

  function Create(slotnr: nat, size: nat): State
    requires slotnr >= 2
  {
    State(size, seq(slotnr, _ => Slot(0, Zeros(size))), 0, Idle, map[], [], 0, seq(slotnr, _ => []))
  }

  datatype Step =
    | Call(data: seq<Byte>)
    | Mark
    | CopyIn(j: nat)
    | Unmark
    | Publish
    | LoadIndex(r: nat)
    | LoadVersion(r: nat, junk: seq<Byte>)
    | CopyOut(r: nat, j: nat)
    | CheckVersion(r: nat)

  /** The slot before the one that is, or will be, written. */
  function Recent(s: State): int {
    (if s.wsi == 0 then |s.slots| else s.wsi) - 1
  }

  function Indices(n: nat): (all: set<nat>)
    ensures forall j: nat :: j in all <==> j < n
  {
    if n == 0 then {} else Indices(n - 1) + {n - 1}
  }

  predicate Enabled(s: State, step: Step) {
    s.wsi < |s.slots| && |s.begun| == |s.slots| &&
    match step
    case Call(data) => s.writer == Idle && |data| == s.size
    case Mark => s.writer.Called?
    case CopyIn(j) => s.writer.Copying? && j in s.writer.left && j < |s.writer.data| && j < |s.slots[s.wsi].d|
    case Unmark => s.writer.Copying? && s.writer.left == {}
    case Publish => s.writer == Copied
    case LoadIndex(r) => r !in s.readers || s.readers[r].Accepted? || s.readers[r].Refused?
    case LoadVersion(r, junk) =>
      r in s.readers && s.readers[r].Loaded? && s.readers[r].slot < |s.slots| && |junk| == s.size
    case CopyOut(r, j) =>
      && r in s.readers && s.readers[r].Reading? && j in s.readers[r].left
      && s.readers[r].slot < |s.slots| && j < |s.readers[r].buf| && j < |s.slots[s.readers[r].slot].d|
    case CheckVersion(r) =>
      r in s.readers && s.readers[r].Reading? && s.readers[r].left == {} && s.readers[r].slot < |s.slots|
  }

  function Next(s: State, step: Step): State
    requires Enabled(s, step)
  {
    match step
    case Call(data) => s.(writer := Called(data))
    case Mark =>
      var slot := s.slots[s.wsi];
      s.(slots := s.slots[s.wsi := slot.(ver := (slot.ver + 1) % VER_MOD)],
         writer := Copying(s.writer.data, Indices(s.size)),
         writes := s.writes + [s.writer.data],
         begun := s.begun[s.wsi := s.begun[s.wsi] + [|s.writes|]])
    case CopyIn(j) =>
      var slot := s.slots[s.wsi];
      s.(slots := s.slots[s.wsi := slot.(d := slot.d[j := s.writer.data[j]])],
         writer := s.writer.(left := s.writer.left - {j}))
    case Unmark =>
      var slot := s.slots[s.wsi];
      s.(slots := s.slots[s.wsi := slot.(ver := (slot.ver + 1) % VER_MOD)], writer := Copied)
    case Publish =>
      s.(wsi := (s.wsi + 1) % |s.slots|, writer := Idle, published := s.published + 1)
    case LoadIndex(r) =>
      s.(readers := s.readers[r := Loaded(Recent(s), s.published)])
    case LoadVersion(r, junk) =>
      var rd := s.readers[r];
      var ver := s.slots[rd.slot].ver;
      s.(readers := s.readers[r :=
        if ver % 2 == 1 then Refused
        else Reading(rd.slot, rd.published, ver, |s.begun[rd.slot]|, junk, Indices(s.size))])
    case CopyOut(r, j) =>
      var rd := s.readers[r];
      s.(readers := s.readers[r := rd.(buf := rd.buf[j := s.slots[rd.slot].d[j]], left := rd.left - {j})])
    case CheckVersion(r) =>
      var rd := s.readers[r];
      s.(readers := s.readers[r :=
        if s.slots[rd.slot].ver == rd.pre then Accepted(rd.published, rd.buf) else Refused])
  }

  // ----- what every step keeps

  /** Is slot `i` between the two version changes of a write? */
  predicate InWrite(s: State, i: nat) {
    s.writer.Copying? && i == s.wsi
  }

  /** The version of slot `i` had it never wrapped. */
  function FullVersion(s: State, i: nat): int
    requires i < |s.begun|
  {
    2 * |s.begun[i]| - if InWrite(s, i) then 1 else 0
  }

  /** What slot `i` should hold once its last write is complete. */
  function Expected(s: State, i: nat): seq<Byte>
    requires i < |s.begun|
    requires forall m :: 0 <= m < |s.begun[i]| ==> s.begun[i][m] < |s.writes|
  {
    if s.begun[i] == [] then Zeros(s.size) else s.writes[s.begun[i][|s.begun[i]| - 1]]
  }

  ghost predicate Shape(s: State) {
    && 2 <= |s.slots| == |s.begun| && s.wsi < |s.slots|
    && (forall i :: 0 <= i < |s.slots| ==> |s.slots[i].d| == s.size)
    && (forall w :: 0 <= w < |s.writes| ==> |s.writes[w]| == s.size)
    && (s.writer.Called? || s.writer.Copying? ==> |s.writer.data| == s.size)
    && |s.writes| == s.published + (if s.writer.Copying? || s.writer.Copied? then 1 else 0)
  }

  /** Each slot's writes are known, ever newer, and the last one published is in the slot before `wsi`. */
  ghost predicate Order(s: State)
    requires Shape(s)
  {
    && (forall i, m :: 0 <= i < |s.slots| && 0 <= m < |s.begun[i]| ==> s.begun[i][m] < |s.writes|)
    && (forall i, m, n :: 0 <= i < |s.slots| && 0 <= m < n < |s.begun[i]| ==> s.begun[i][m] < s.begun[i][n])
    && (s.published > 0 ==> s.begun[Recent(s)] != [] && Last(s.begun[Recent(s)]) == s.published - 1)
    && (s.writer.Copying? || s.writer.Copied? ==> s.begun[s.wsi] != [] && Last(s.begun[s.wsi]) == s.published)
  }

  function Last(b: seq<nat>): nat
    requires b != []
  {
    b[|b| - 1]
  }

  ghost predicate SlotOk(s: State, i: nat)
    requires Shape(s) && Order(s) && i < |s.slots|
  {
    && s.slots[i].ver == FullVersion(s, i) % VER_MOD
    && (!InWrite(s, i) ==> s.slots[i].d == Expected(s, i))
    && (InWrite(s, i) ==> s.writer.data == Expected(s, i))
    && (InWrite(s, i) ==> forall j: nat :: j < s.size && j !in s.writer.left ==> s.slots[i].d[j] == s.writer.data[j])
  }

  /** A write that reached the reader's slot is at least as new as any published before it looked. */
  ghost predicate ReaderOk(s: State, rd: Reader)
    requires Shape(s) && Order(s)
  {
    match rd
    case Loaded(slot, pub) =>
      && slot < |s.slots| && pub <= s.published
      && (pub > 0 ==> s.begun[slot] != [] && Last(s.begun[slot]) >= pub - 1)
    case Reading(slot, pub, pre, begun, buf, left) =>
      && slot < |s.slots| && |buf| == s.size && begun <= |s.begun[slot]|
      && pre == (2 * begun) % VER_MOD
      && (pub > 0 ==> begun > 0 && s.begun[slot][begun - 1] >= pub - 1)
      && (begun == |s.begun[slot]| ==> !InWrite(s, slot))
      && (begun == |s.begun[slot]| ==> forall j: nat :: j < s.size && j !in left ==> buf[j] == s.slots[slot].d[j])
    case Accepted(_, _) => true
    case Refused => true
  }

  ghost predicate Inv(s: State) {
    && Shape(s) && Order(s)
    && (forall i :: 0 <= i < |s.slots| ==> SlotOk(s, i))
    && (forall r :: r in s.readers ==> ReaderOk(s, s.readers[r]))
  }

  lemma CreateInv(slotnr: nat, size: nat)
    requires slotnr >= 2
    ensures Inv(Create(slotnr, size))
  {
  }

  lemma MarkKeepsOrder(s: State)
    requires Inv(s) && Enabled(s, Mark)
    ensures Shape(Next(s, Mark)) && Order(Next(s, Mark))
  {
    hide SlotOk, ReaderOk, Expected;
    var t := Next(s, Mark);
    assert t.begun[s.wsi] == s.begun[s.wsi] + [|s.writes|];
    assert forall i :: 0 <= i < |s.slots| && i != s.wsi ==> t.begun[i] == s.begun[i] && t.slots[i] == s.slots[i];
    assert Shape(t);
    forall i, m, n | 0 <= i < |t.slots| && 0 <= m < n < |t.begun[i]| ensures t.begun[i][m] < t.begun[i][n] {
      assert m < |s.begun[i]|;
    }
  }

  /** The slot after the last one is the first. */
  lemma NextIndex(wsi: nat, n: nat)
    requires wsi < n
    ensures (wsi + 1) % n == if wsi + 1 == n then 0 else wsi + 1
  {
    if wsi + 1 < n {
      assert (wsi + 1) / n == 0;
    }
  }

  lemma PublishKeepsOrder(s: State)
    requires Inv(s) && Enabled(s, Publish)
    ensures Shape(Next(s, Publish)) && Order(Next(s, Publish))
  {
    hide SlotOk, ReaderOk, Expected;
    NextIndex(s.wsi, |s.slots|);
    assert Recent(Next(s, Publish)) == s.wsi;
  }

  lemma WriterKeepsOrder(s: State, step: Step)
    requires Inv(s) && Enabled(s, step)
    requires step.Call? || step.Mark? || step.CopyIn? || step.Unmark? || step.Publish?
    ensures Shape(Next(s, step)) && Order(Next(s, step))
  {
    hide SlotOk, ReaderOk, Expected;
    if step.Mark? {
      MarkKeepsOrder(s);
    } else if step.Publish? {
      PublishKeepsOrder(s);
    } else {
      var t := Next(s, step);
      assert t.begun == s.begun && t.wsi == s.wsi;
    }
  }

  lemma WriterKeepsOtherSlot(s: State, step: Step, i: nat)
    requires Inv(s) && Enabled(s, step) && i < |s.slots| && i != s.wsi
    requires step.Call? || step.Mark? || step.CopyIn? || step.Unmark? || step.Publish?
    requires Shape(Next(s, step)) && Order(Next(s, step))
    ensures SlotOk(Next(s, step), i)
  {
    hide ReaderOk;
    var t := Next(s, step);
    assert SlotOk(s, i);
    assert t.begun[i] == s.begun[i] && t.slots[i] == s.slots[i];
    assert !InWrite(t, i) && !InWrite(s, i);
    assert Expected(t, i) == Expected(s, i);
  }

  lemma SlotFacts(s: State, i: nat)
    requires Shape(s) && Order(s) && i < |s.slots|
    ensures SlotOk(s, i) <==>
      && s.slots[i].ver == FullVersion(s, i) % VER_MOD
      && (!InWrite(s, i) ==> s.slots[i].d == Expected(s, i))
      && (InWrite(s, i) ==> s.writer.data == Expected(s, i))
      && (InWrite(s, i) ==> forall j: nat :: j < s.size && j !in s.writer.left ==> s.slots[i].d[j] == s.writer.data[j])
  {
  }

  /** A version one further on, wrapped around or not. */
  lemma NextVersion(ver: int, full: int)
    requires ver == full % VER_MOD
    ensures (ver + 1) % VER_MOD == (full + 1) % VER_MOD
  {
  }

  lemma SameExpected(s: State, t: State, i: nat)
    requires Shape(s) && Order(s) && Shape(t) && Order(t) && i < |s.slots| && i < |t.slots|
    requires t.begun == s.begun && t.writes == s.writes && t.size == s.size
    ensures Expected(t, i) == Expected(s, i)
  {
  }

  lemma LastExpected(t: State, i: nat)
    requires Shape(t) && Order(t) && i < |t.slots| && t.begun[i] != [] && t.writes != []
    requires Last(t.begun[i]) == |t.writes| - 1
    ensures Expected(t, i) == t.writes[|t.writes| - 1]
  {
  }

  lemma MarkKeepsItsSlot(s: State)
    requires Inv(s) && Enabled(s, Mark) && Shape(Next(s, Mark)) && Order(Next(s, Mark))
    ensures SlotOk(Next(s, Mark), s.wsi)
  {
    hide ReaderOk, SlotOk, Order, Expected;
    var t, i := Next(s, Mark), s.wsi;
    SlotFacts(s, i);
    NextVersion(s.slots[i].ver, FullVersion(s, i));
    LastExpected(t, i);
    SlotFacts(t, i);
  }

  lemma UnmarkKeepsItsSlot(s: State)
    requires Inv(s) && Enabled(s, Unmark) && Shape(Next(s, Unmark)) && Order(Next(s, Unmark))
    ensures SlotOk(Next(s, Unmark), s.wsi)
  {
    hide ReaderOk, SlotOk, Order, Expected;
    var t, i := Next(s, Unmark), s.wsi;
    SlotFacts(s, i);
    NextVersion(s.slots[i].ver, FullVersion(s, i));
    SameExpected(s, t, i);
    assert s.slots[i].d == s.writer.data;
    SlotFacts(t, i);
  }

  lemma WriterKeepsItsSlot(s: State, step: Step)
    requires Inv(s) && Enabled(s, step)
    requires step.Call? || step.Mark? || step.CopyIn? || step.Unmark? || step.Publish?
    requires Shape(Next(s, step)) && Order(Next(s, step))
    ensures SlotOk(Next(s, step), s.wsi)
  {
    hide ReaderOk, SlotOk, Order, Expected;
    if step.Mark? {
      MarkKeepsItsSlot(s);
    } else if step.Unmark? {
      UnmarkKeepsItsSlot(s);
    } else {
      var t, i := Next(s, step), s.wsi;
      SlotFacts(s, i);
      SameExpected(s, t, i);
      SlotFacts(t, i);
    }
  }

  lemma WriterKeepsReader(s: State, step: Step, rd: Reader)
    requires Inv(s) && Enabled(s, step) && ReaderOk(s, rd)
    requires step.Call? || step.Mark? || step.CopyIn? || step.Unmark? || step.Publish?
    requires Shape(Next(s, step)) && Order(Next(s, step))
    ensures ReaderOk(Next(s, step), rd)
  {
    hide SlotOk, Expected;
    var t := Next(s, step);
    if rd.Loaded? || rd.Reading? {
      assert rd.slot != s.wsi ==> t.begun[rd.slot] == s.begun[rd.slot] && t.slots[rd.slot] == s.slots[rd.slot];
    }
  }

  lemma WriterStepInv(s: State, step: Step)
    requires Inv(s) && Enabled(s, step)
    requires step.Call? || step.Mark? || step.CopyIn? || step.Unmark? || step.Publish?
    ensures Inv(Next(s, step))
  {
    hide SlotOk, ReaderOk, Order;
    var t := Next(s, step);
    WriterKeepsOrder(s, step);
    forall i | 0 <= i < |t.slots| ensures SlotOk(t, i) {
      if i == s.wsi {
        WriterKeepsItsSlot(s, step);
      } else {
        WriterKeepsOtherSlot(s, step, i);
      }
    }
    forall r | r in t.readers ensures ReaderOk(t, t.readers[r]) {
      WriterKeepsReader(s, step, s.readers[r]);
    }
  }

  /** A reader changes nothing that the writer or another reader sees. */
  lemma ReaderChangesOnlyItself(s: State, step: Step)
    requires Inv(s) && Enabled(s, step)
    requires step.LoadIndex? || step.LoadVersion? || step.CopyOut? || step.CheckVersion?
    ensures var t := Next(s, step); t == s.(readers := t.readers) && t.readers.Keys == s.readers.Keys + {step.r}
    ensures forall r :: r in s.readers && r != step.r ==> Next(s, step).readers[r] == s.readers[r]
  {
  }

  /** What the invariant says of slots and readers does not depend on the set of readers. */
  lemma SharedPart(s: State, t: State)
    requires Inv(s) && t == s.(readers := t.readers)
    ensures Shape(t) && Order(t)
    ensures forall i :: 0 <= i < |t.slots| ==> SlotOk(t, i)
    ensures forall rd :: ReaderOk(s, rd) ==> ReaderOk(t, rd)
  {
    assert Shape(t);
    forall i | 0 <= i < |t.slots| ensures SlotOk(t, i) {
      assert SlotOk(s, i);
    }
  }

  lemma ReaderStepOwn(s: State, step: Step)
    requires Inv(s) && Enabled(s, step)
    requires step.LoadIndex? || step.LoadVersion? || step.CopyOut? || step.CheckVersion?
    ensures ReaderOk(s, Next(s, step).readers[step.r])
  {
    if step.LoadVersion? || step.CopyOut? {
      var rd := s.readers[step.r];
      assert ReaderOk(s, rd);
      assert SlotOk(s, rd.slot);
      hide Expected;
    }
  }

  lemma ReaderStepInv(s: State, step: Step)
    requires Inv(s) && Enabled(s, step)
    requires step.LoadIndex? || step.LoadVersion? || step.CopyOut? || step.CheckVersion?
    ensures Inv(Next(s, step))
  {
    hide SlotOk, ReaderOk, Order;
    var t := Next(s, step);
    ReaderChangesOnlyItself(s, step);
    SharedPart(s, t);
    ReaderStepOwn(s, step);
    forall r | r in t.readers ensures ReaderOk(t, t.readers[r]) {
      assert ReaderOk(s, t.readers[r]);
    }
  }

  lemma StepInv(s: State, step: Step)
    requires Inv(s) && Enabled(s, step)
    ensures Inv(Next(s, step))
  {
    if step.LoadIndex? || step.LoadVersion? || step.CopyOut? || step.CheckVersion? {
      ReaderStepInv(s, step);
    } else {
      WriterStepInv(s, step);
    }
  }

  // ----- whole runs

  /** The steps `run`, taken one after the other, lead from `s` to `t`. */
  ghost predicate Leads(s: State, run: seq<Step>, t: State)
    decreases |run|
  {
    if run == [] then s == t else Enabled(s, run[0]) && Leads(Next(s, run[0]), run[1..], t)
  }

  lemma {:induction false} RunInv(s: State, run: seq<Step>, t: State)
    requires Inv(s) && Leads(s, run, t)
    ensures Inv(t)
    decreases |run|
  {
    if run != [] {
      StepInv(s, run[0]);
      RunInv(Next(s, run[0]), run[1..], t);
    }
  }

  /** Fewer than 2^31 writes have hit the reader's slot since it loaded the version. */
  predicate FewWrites(s: State, rd: Reader)
    requires rd.Reading? && rd.slot < |s.begun|
  {
    |s.begun[rd.slot]| < rd.begun + 0x8000_0000
  }

  /** The version check tells exactly whether a write hit the slot in between. */
  lemma CheckIsExact(s: State, r: nat)
    requires Inv(s) && Enabled(s, CheckVersion(r)) && FewWrites(s, s.readers[r])
    ensures Next(s, CheckVersion(r)).readers[r].Accepted? <==> |s.begun[s.readers[r].slot]| == s.readers[r].begun
  {
    hide Order, Shape, Expected;
    var rd := s.readers[r];
    assert ReaderOk(s, rd);
    assert SlotOk(s, rd.slot);
    var full, pre := FullVersion(s, rd.slot), 2 * rd.begun;
    assert pre <= full < pre + VER_MOD;
    if s.slots[rd.slot].ver == rd.pre {
      SameRemainder(full, pre);
    }
  }

  lemma SameRemainder(a: int, b: nat)
    requires b <= a < b + VER_MOD && a % VER_MOD == b % VER_MOD
    ensures a == b
  {
  }

  /**
   * In every run, for any number of readers, an accepted read holds the bytes of exactly one write
   * to the slot, no older than the last one published when the reader looked; or the initial zeros,
   * when none had been published.
   */
  lemma AcceptedReadIsOneWrite(slotnr: nat, size: nat, run: seq<Step>, s: State, r: nat)
    requires slotnr >= 2 && Leads(Create(slotnr, size), run, s)
    requires Enabled(s, CheckVersion(r)) && FewWrites(s, s.readers[r])
    requires Next(s, CheckVersion(r)).readers[r].Accepted?
    ensures var rd, buf := s.readers[r], Next(s, CheckVersion(r)).readers[r].buf;
      || (rd.published == 0 && s.begun[rd.slot] == [] && buf == Zeros(s.size))
      || (exists w :: rd.published - 1 <= w < |s.writes| && w in s.begun[rd.slot] && buf == s.writes[w])
  {
    CreateInv(slotnr, size);
    RunInv(Create(slotnr, size), run, s);
    CheckIsExact(s, r);
    var rd := s.readers[r];
    assert ReaderOk(s, rd) && SlotOk(s, rd.slot);
    assert rd.buf == s.slots[rd.slot].d;
    if s.begun[rd.slot] != [] {
      var w := Last(s.begun[rd.slot]);
      assert w in s.begun[rd.slot] && rd.buf == s.writes[w];
    }
  }

  // ----- the bound on the number of writes is the best possible

  lemma {:induction false} LeadsConcat(s: State, a: seq<Step>, m: State, b: seq<Step>, t: State)
    requires Leads(s, a, m) && Leads(m, b, t)
    ensures Leads(s, a + b, t)
    decreases |a|
  {
    if a == [] {
      assert a + b == b;
    } else {
      assert (a + b)[1..] == a[1..] + b;
      LeadsConcat(Next(s, a[0]), a[1..], m, b, t);
    }
  }

  lemma LeadsOne(s: State, run: seq<Step>, m: State, step: Step)
    requires Leads(s, run, m) && Enabled(m, step)
    ensures Leads(s, run + [step], Next(m, step))
  {
    var t := Next(m, step);
    assert Leads(t, [], t);
    assert [step][1..] == [];
    assert Leads(m, [step], t);
    LeadsConcat(s, run, m, [step], t);
  }

  /** A two-slot buffer of two-byte slots, whose writer is idle. */
  ghost predicate Small(s: State) {
    && Inv(s) && s.writer == Idle && s.size == 2 && |s.slots| == 2
  }

  /** A write up to the second change of the version. */
  lemma FourSteps(s: State, data: seq<Byte>) returns (s1: State, s2: State, s3: State, s4: State)
    requires Small(s) && |data| == 2
    ensures Enabled(s, Call(data)) && s1 == Next(s, Call(data))
    ensures Enabled(s1, Mark) && s2 == Next(s1, Mark)
    ensures Enabled(s2, CopyIn(0)) && s3 == Next(s2, CopyIn(0))
    ensures Enabled(s3, CopyIn(1)) && s4 == Next(s3, CopyIn(1))
    ensures Inv(s4) && s4.size == 2 && |s4.slots| == 2 && s4.wsi == s.wsi && s4.readers == s.readers
    ensures s4.writer == Copying(data, {}) && s4.writes == s.writes + [data]
    ensures s4.slots == s.slots[s.wsi := Slot((s.slots[s.wsi].ver + 1) % VER_MOD, data)]
    ensures s4.begun == s.begun[s.wsi := s.begun[s.wsi] + [|s.writes|]]
  {
    hide Order, SlotOk, ReaderOk;
    s1 := Next(s, Call(data));
    StepInv(s, Call(data));
    s2 := Next(s1, Mark);
    StepInv(s1, Mark);
    s3 := Next(s2, CopyIn(0));
    StepInv(s2, CopyIn(0));
    s4 := Next(s3, CopyIn(1));
    StepInv(s3, CopyIn(1));
    assert s4.writer.left == {};
    assert s4.slots[s.wsi].d == data;
  }

  /** One whole call of write. */
  lemma OneWrite(s: State, data: seq<Byte>) returns (run: seq<Step>, t: State)
    requires Small(s) && |data| == 2
    ensures Leads(s, run, t) && Small(t) && t.wsi == 1 - s.wsi && t.readers == s.readers
    ensures t.slots == s.slots[s.wsi := Slot((s.slots[s.wsi].ver + 2) % VER_MOD, data)]
    ensures |t.begun[s.wsi]| == |s.begun[s.wsi]| + 1 && t.begun[1 - s.wsi] == s.begun[1 - s.wsi]
    ensures t.writes == s.writes + [data]
  {
    hide Order, SlotOk, ReaderOk, Leads;
    var s1, s2, s3, s4 := FourSteps(s, data);
    var s5 := Next(s4, Unmark);
    StepInv(s4, Unmark);
    t := Next(s5, Publish);
    StepInv(s5, Publish);
    run := [Call(data), Mark, CopyIn(0), CopyIn(1), Unmark, Publish];
    SixSteps(s, s1, s2, s3, s4, s5, t, data);
  }

  lemma SixSteps(s: State, s1: State, s2: State, s3: State, s4: State, s5: State, t: State, data: seq<Byte>)
    requires Enabled(s, Call(data)) && s1 == Next(s, Call(data))
    requires Enabled(s1, Mark) && s2 == Next(s1, Mark)
    requires Enabled(s2, CopyIn(0)) && s3 == Next(s2, CopyIn(0))
    requires Enabled(s3, CopyIn(1)) && s4 == Next(s3, CopyIn(1))
    requires Enabled(s4, Unmark) && s5 == Next(s4, Unmark)
    requires Enabled(s5, Publish) && t == Next(s5, Publish)
    ensures Leads(s, [Call(data), Mark, CopyIn(0), CopyIn(1), Unmark, Publish], t)
  {
    hide Enabled, Next;
    assert Leads(t, [], t);
    assert [Publish][1..] == [];
    assert Leads(s5, [Publish], t);
    assert [Unmark, Publish][1..] == [Publish];
    assert Leads(s4, [Unmark, Publish], t);
    assert [CopyIn(1), Unmark, Publish][1..] == [Unmark, Publish];
    assert Leads(s3, [CopyIn(1), Unmark, Publish], t);
    assert [CopyIn(0), CopyIn(1), Unmark, Publish][1..] == [CopyIn(1), Unmark, Publish];
    assert Leads(s2, [CopyIn(0), CopyIn(1), Unmark, Publish], t);
    assert [Mark, CopyIn(0), CopyIn(1), Unmark, Publish][1..] == [CopyIn(0), CopyIn(1), Unmark, Publish];
    assert Leads(s1, [Mark, CopyIn(0), CopyIn(1), Unmark, Publish], t);
    assert [Call(data), Mark, CopyIn(0), CopyIn(1), Unmark, Publish][1..]
        == [Mark, CopyIn(0), CopyIn(1), Unmark, Publish];
  }

  ghost predicate AllAre(writes: seq<seq<Byte>>, data: seq<Byte>) {
    forall w :: 0 <= w < |writes| ==> writes[w] == data
  }

  /** `k` times around the buffer. */
  lemma {:induction false} Rounds(s: State, data: seq<Byte>, k: nat) returns (run: seq<Step>, t: State)
    requires Small(s) && |data| == 2 && s.wsi == 0 && AllAre(s.writes, data)
    ensures Leads(s, run, t) && Small(t) && t.wsi == 0 && t.readers == s.readers && AllAre(t.writes, data)
    ensures t.slots[1].ver == (s.slots[1].ver + 2 * k) % VER_MOD
    ensures k > 0 ==> t.slots[1].d == data
    ensures |t.begun[1]| == |s.begun[1]| + k
    decreases k
  {
    hide Order, SlotOk, ReaderOk, Enabled, Next;
    if k == 0 {
      assert SlotOk(s, 1);
      VersionInRange(s, 1);
      run, t := [], s;
    } else {
      hide Leads;
      var before, m := Rounds(s, data, k - 1);
      var first, m1 := OneWrite(m, data);
      var second, m2 := OneWrite(m1, data);
      LeadsConcat(s, before, m, first, m1);
      LeadsConcat(s, before + first, m1, second, m2);
      run, t := before + first + second, m2;
    }
  }

  lemma VersionInRange(s: State, i: nat)
    requires Inv(s) && i < |s.slots|
    ensures s.slots[i].ver < VER_MOD
  {
    assert SlotOk(s, i);
  }

  /** A reader that has copied the first of two bytes from a slot never written. */
  lemma HalfRead() returns (run: seq<Step>, s: State)
    ensures Leads(Create(2, 2), run, s) && Small(s) && s.wsi == 0 && s.writes == []
    ensures s.slots[1].ver == 0 && s.begun[1] == []
    ensures s.readers == map[0 := Reading(1, 0, 0, 0, [0, 9], {1})]
  {
    hide Leads, Order, SlotOk, ReaderOk;
    var s0 := Create(2, 2);
    CreateInv(2, 2);
    assert Leads(s0, [], s0) by {
      NoSteps(s0);
    }
    var s1 := Next(s0, LoadIndex(0));
    StepInv(s0, LoadIndex(0));
    LeadsOne(s0, [], s0, LoadIndex(0));
    var s2 := Next(s1, LoadVersion(0, [9, 9]));
    StepInv(s1, LoadVersion(0, [9, 9]));
    LeadsOne(s0, [] + [LoadIndex(0)], s1, LoadVersion(0, [9, 9]));
    s := Next(s2, CopyOut(0, 0));
    StepInv(s2, CopyOut(0, 0));
    LeadsOne(s0, [] + [LoadIndex(0)] + [LoadVersion(0, [9, 9])], s2, CopyOut(0, 0));
    run := [] + [LoadIndex(0)] + [LoadVersion(0, [9, 9])] + [CopyOut(0, 0)];
    assert Indices(2) - {0} == {1};
    assert s1.readers == map[0 := Loaded(1, 0)];
    assert s2.readers[0] == Reading(1, 0, 0, 0, [9, 9], Indices(2));
    assert s.readers[0].buf == [0, 9];
    assert s.readers[0] == Reading(1, 0, 0, 0, [0, 9], {1});
  }

  lemma NoSteps(s: State)
    ensures Leads(s, [], s)
  {
  }

  /**
   * With 2^31 writes to its slot between the two version loads, a reader can accept bytes that no
   * write ever put there together.
   */
  lemma TornReadAtTheBound() returns (run: seq<Step>, s: State)
    ensures Leads(Create(2, 2), run, s) && Enabled(s, CheckVersion(0))
    ensures |s.begun[s.readers[0].slot]| == s.readers[0].begun + 0x8000_0000
    ensures Next(s, CheckVersion(0)).readers[0].Accepted?
    ensures var buf := Next(s, CheckVersion(0)).readers[0].buf;
      buf != Zeros(2) && forall w :: 0 <= w < |s.writes| ==> buf != s.writes[w]
  {
    hide Leads, Order, SlotOk, ReaderOk;
    var first, half := HalfRead();
    var more, late := Rounds(half, [1, 1], 0x8000_0000);
    LeadsConcat(Create(2, 2), first, half, more, late);
    LeadsOne(Create(2, 2), first + more, late, CopyOut(0, 1));
    run, s := first + more + [CopyOut(0, 1)], Next(late, CopyOut(0, 1));
    assert s.readers[0] == Reading(1, 0, 0, 0, [0, 1], {});
    assert [0, 1][0] == 0 && [1, 1][0] == 1 && Zeros(2)[1] == 0;
  }
}
