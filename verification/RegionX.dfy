/** The x-sweep: one output row's x-bands, built in place in the output buffer. */
module RegionX {
  import opened Band
  import opened RegionSpec

  /** Appends a band, growing the last one instead when they touch. */
  function XAppend(xs: seq<Band>, b: Band): seq<Band> {
    if IsEmpty(b) then
      xs
    else if xs != [] && xs[|xs| - 1].b == b.s then
      xs[..|xs| - 1] + [Band(xs[|xs| - 1].s, b.b)]
    else
      xs + [b]
  }

  lemma XAppendNormal(xs: seq<Band>, b: Band)
    requires XNormal(xs) && XEndsBy(xs, b.s)
    ensures XNormal(XAppend(xs, b))
    ensures XInRange(xs) && (IsEmpty(b) || InRange(b)) ==> XInRange(XAppend(xs, b))
    ensures forall v :: XIn(XAppend(xs, b), v) <==> XIn(xs, v) || Has(b, v)
    ensures XEndsBy(XAppend(xs, b), if IsEmpty(b) then b.s else b.b)
  {
    var r := XAppend(xs, b);
    var n := |r| - 1;
    assert !IsEmpty(b) ==> forall i :: 0 <= i < n ==> r[i] == xs[i];
    XAppendPoints(xs, b);
    hide XIn;
  }

  lemma XAppendPoints(xs: seq<Band>, b: Band)
    requires XNormal(xs) && XEndsBy(xs, b.s)
    ensures forall v :: XIn(XAppend(xs, b), v) <==> XIn(xs, v) || Has(b, v)
  {
    var r := XAppend(xs, b);
    if !IsEmpty(b) {
      var n := |r| - 1;
      assert forall i :: 0 <= i < n ==> r[i] == xs[i];
      forall v ensures XIn(r, v) <==> XIn(xs, v) || Has(b, v) {
        if Has(b, v) {
          assert Has(r[n], v);
        }
        if XIn(xs, v) {
          var i :| 0 <= i < |xs| && Has(xs[i], v);
          assert Has(r[i], v);
        }
      }
    }
  }

  /** Offset of the band that the next one may grow into, or -1 for the invalid minimum band. */
  function PrevX(base: nat, outb: nat): int {
    if outb == base then -1 else outb - 1
  }

  method BandAdd(buf: array<Band>, ghost base: nat, prevb: int, outb: nat, b: Band) returns (n: nat)
    requires base <= outb < buf.Length && prevb == PrevX(base, outb)
    requires IsEmpty(b) || (XEndsBy(buf[base..outb], b.s) && INT_MIN + 1 < b.s)
    modifies buf
    ensures outb + n <= buf.Length && n <= 1
    ensures buf[base..outb + n] == XAppend(old(buf[base..outb]), b)
    ensures buf[..base] == old(buf[..base])
  {
    if IsEmpty(b) {
      return 0;
    }
    var prev := if prevb < 0 then MIN_INVALID else buf[prevb];
    if prev.b == b.s {
      buf[prevb] := Band(prev.s, b.b);
      return 0;
    }
    buf[outb] := b;
    return 1;
  }

  /** The part below counts when `op` keeps what one operand alone covers. */
  predicate KeepsAlone(op: Op, lho: bool) {
    op == Union || (op == Diff && lho)
  }

  method BandOpNoOverlap(buf: array<Band>, ghost base: nat, prevb: int, outb: nat, b: Band, op: Op, lho: bool)
    returns (n: nat)
    requires base <= outb < buf.Length && prevb == PrevX(base, outb)
    requires IsEmpty(b) || (XEndsBy(buf[base..outb], b.s) && INT_MIN + 1 < b.s)
    modifies buf
    ensures outb + n <= buf.Length && n <= 1
    ensures buf[base..outb + n] ==
      if KeepsAlone(op, lho) then XAppend(old(buf[base..outb]), b) else old(buf[base..outb])
    ensures buf[..base] == old(buf[..base])
  {
    n := 0;
    if op == Union || (op == Diff && lho) {
      n := BandAdd(buf, base, prevb, outb, b);
    }
  }

  method BandOpOverlap(buf: array<Band>, ghost base: nat, prevb: int, outb: nat, b: Band, op: Op) returns (n: nat)
    requires base <= outb < buf.Length && prevb == PrevX(base, outb)
    requires IsEmpty(b) || (XEndsBy(buf[base..outb], b.s) && INT_MIN + 1 < b.s)
    modifies buf
    ensures outb + n <= buf.Length && n <= 1
    ensures buf[base..outb + n] == if op == Diff then old(buf[base..outb]) else XAppend(old(buf[base..outb]), b)
    ensures buf[..base] == old(buf[..base])
  {
    if op == Diff {
      return 0;
    }
    n := BandAdd(buf, base, prevb, outb, b);
  }

  /** One of the two operands of a step: a real band, or the marker of a list that ran out. */
  ghost predicate Operand(b: Band) {
    !IsEmpty(b) && (InRange(b) || b == MAX_INVALID)
  }

  /** Holds of the output before a step. */
  ghost predicate XReady(xs: seq<Band>, limit: int) {
    XNormal(xs) && XInRange(xs) && XEndsBy(xs, limit)
  }

  /** `zs` extends `xs` by exactly what `op` makes of two bands below the nearer of their ends. */
  ghost predicate XStep(xs: seq<Band>, zs: seq<Band>, op: Op, b0: Band, b1: Band) {
    && XReady(zs, Min(b0.b, b1.b))
    && (|zs| == |xs| || |zs| == |xs| + 1)
    && forall v :: XIn(zs, v) <==> (XIn(xs, v) || (v < Min(b0.b, b1.b) && Apply(op, Has(b0, v), Has(b1, v))))
  }

  function EmitLower(xs: seq<Band>, op: Op, lho: bool, bs: Band, bb: Band): seq<Band> {
    if KeepsAlone(op, lho) then XAppend(xs, LowerPart(bs, bb)) else xs
  }

  lemma EmitLowerReady(xs: seq<Band>, op: Op, lho: bool, bs: Band, bb: Band)
    requires Operand(bs) && Operand(bb) && InRange(bs) && bs.s <= bb.s
    requires XReady(xs, bs.s)
    ensures XReady(EmitLower(xs, op, lho, bs, bb), Min(bs.b, bb.s))
    ensures forall v :: XIn(EmitLower(xs, op, lho, bs, bb), v) <==>
      (XIn(xs, v) || (KeepsAlone(op, lho) && Has(LowerPart(bs, bb), v)))
  {
    if KeepsAlone(op, lho) {
      XAppendNormal(xs, LowerPart(bs, bb));
    }
  }

  /** What a step emits, point by point. */
  lemma PartsApply(op: Op, lho: bool, bs: Band, bb: Band, v: int)
    requires !IsEmpty(bs) && !IsEmpty(bb) && bs.s <= bb.s
    ensures ((KeepsAlone(op, lho) && Has(LowerPart(bs, bb), v)) || (op != Diff && Has(CommonPart(bs, bb), v)))
      <==> (v < Min(bs.b, bb.b) && if lho then Apply(op, Has(bs, v), Has(bb, v)) else Apply(op, Has(bb, v), Has(bs, v)))
  {
  }

  lemma EmitXCorrect(xs: seq<Band>, ys: seq<Band>, zs: seq<Band>, op: Op, lho: bool, bs: Band, bb: Band)
    requires Operand(bs) && Operand(bb) && InRange(bs) && bs.s <= bb.s
    requires XReady(xs, bs.s)
    requires ys == EmitLower(xs, op, lho, bs, bb)
    requires zs == if op == Diff then ys else XAppend(ys, CommonPart(bs, bb))
    ensures if lho then XStep(xs, zs, op, bs, bb) else XStep(xs, zs, op, bb, bs)
  {
    var obo := CommonPart(bs, bb);
    EmitLowerReady(xs, op, lho, bs, bb);
    if op != Diff && !IsEmpty(obo) {
      XAppendNormal(ys, obo);
    }
    assert XReady(zs, Min(bs.b, bb.b));
    forall v
      ensures XIn(zs, v) <==> (XIn(xs, v) || (v < Min(bs.b, bb.b) &&
        if lho then Apply(op, Has(bs, v), Has(bb, v)) else Apply(op, Has(bb, v), Has(bs, v))))
    {
      PartsApply(op, lho, bs, bb, v);
      assert XIn(zs, v) <==> (XIn(ys, v) || (op != Diff && Has(obo, v)));
    }
  }

  lemma EmitLowerIs(xs: seq<Band>, op: Op, lho: bool, bs: Band, bb: Band)
    ensures EmitLower(xs, op, lho, bs, bb) == if KeepsAlone(op, lho) then XAppend(xs, LowerPart(bs, bb)) else xs
  {
  }

  /** The lower part starts and ends where the row may go on. */
  lemma PartsFit(xs: seq<Band>, ys: seq<Band>, op: Op, lho: bool, bs: Band, bb: Band)
    requires Operand(bs) && Operand(bb) && InRange(bs) && bs.s <= bb.s && XReady(xs, bs.s)
    requires ys == EmitLower(xs, op, lho, bs, bb)
    ensures var b := LowerPart(bs, bb); IsEmpty(b) || (XEndsBy(xs, b.s) && INT_MIN + 1 < b.s)
    ensures var b := CommonPart(bs, bb); IsEmpty(b) || (XEndsBy(ys, b.s) && INT_MIN + 1 < b.s)
  {
    hide XNormal, XInRange, XIn, XAppend;
    EmitLowerReady(xs, op, lho, bs, bb);
  }

  /**
   * One step of the x-sweep: settles every coordinate below the nearer end of the two bands, and
   * hands back what is left of the farther one.
   */
  method BandOp(buf: array<Band>, ghost base: nat, prevb: int, outb: nat, b0: Band, b1: Band, op: Op)
    returns (n: nat, botb0: bool, obb: Band, newPrevb: int)
    requires base <= outb && outb + 1 < buf.Length && prevb == PrevX(base, outb)
    requires Operand(b0) && Operand(b1) && (InRange(b0) || InRange(b1))
    requires XReady(buf[base..outb], Min(b0.s, b1.s))
    modifies buf
    ensures n <= 1 && newPrevb == PrevX(base, outb + n)
    ensures buf[..base] == old(buf[..base])
    ensures XStep(old(buf[base..outb]), buf[base..outb + n], op, b0, b1)
    ensures obb == Trim(if botb0 then b0 else b1, Min(b0.b, b1.b))
    ensures IsEmpty(obb) <==> b0.b == b1.b
    ensures !IsEmpty(obb) ==> (botb0 <==> b1.b < b0.b)
  {
    hide XIn, XNormal, XInRange, XAppend, XStep, LowerPart, CommonPart, UpperPart, LayoutOf, Trim, XEndsBy, EmitLower;
    var bs, bb, bsb0 := b1, b0, false;
    if b0.s < b1.s {
      bs, bb, bsb0 := b0, b1, true;
    }
    var pos, obs, obo;
    pos, obs, obo, obb := AnalyzeLayout(bs, bb);
    ghost var xs := buf[base..outb];
    PartsFit(xs, EmitLower(xs, op, bsb0, bs, bb), op, bsb0, bs, bb);
    var at := outb;
    newPrevb := prevb;

    // the lower part, covered by one band only
    var added := BandOpNoOverlap(buf, base, newPrevb, at, obs, op, bsb0);
    ghost var ys := buf[base..at + added];
    EmitLowerIs(xs, op, bsb0, bs, bb);
    if added > 0 {
      newPrevb := at;
      at := at + added;
    }
    assert ys == buf[base..at];

    // the part covered by both
    added := BandOpOverlap(buf, base, newPrevb, at, obo, op);
    ghost var zs := buf[base..at + added];
    EmitXCorrect(xs, ys, zs, op, bsb0, bs, bb);
    if added > 0 {
      newPrevb := at;
      at := at + added;
    }
    assert zs == buf[base..at];

    botb0 := (bsb0 && pos == Subset) || (!bsb0 && pos != Subset);
    BottomIs(b0, b1, bs, bb, bsb0, botb0);
    n := at - outb;
  }
}
