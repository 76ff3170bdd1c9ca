/** The run of x-steps that builds one output row from two input rows. */
module RegionSweepX {
  import opened Band
  import opened RegionSpec
  import opened RegionX

  /** In `f` at offset `at` stand the bands `xs` and then an empty band. */
  ghost predicate XAt(f: seq<Band>, at: nat, xs: seq<Band>) {
    && at + |xs| < |f|
    && f[at..at + |xs|] == xs
    && IsEmpty(f[at + |xs|])
    && AllNonEmpty(xs)
  }

  /**
   * The sweep has settled everything of `xs` below `low`: bands before `i` lie below it, and `cur`
   * is the rest of band `i`, or what stands in for a list that ran out.
   */
  ghost predicate XCursor(xs: seq<Band>, i: nat, low: int, cur: Band) {
    && i <= |xs|
    && (forall j :: 0 <= j < i ==> xs[j].b <= low)
    && (i < |xs| ==> cur == Trim(xs[i], low) && low < xs[i].b)
    && (i == |xs| ==> IsEmpty(cur) || cur == MAX_INVALID)
  }

  lemma XCursorSlice(xs: seq<Band>, i: nat, low: int, cur: Band, cut: int, v: int)
    requires XNormal(xs) && XCursor(xs, i, low, cur) && low <= v < cut <= cur.b && cut < INT_MAX
    requires !IsEmpty(cur)
    ensures XIn(xs, v) <==> Has(cur, v)
  {
    if i < |xs| && Has(cur, v) {
      assert Has(xs[i], v);
    }
  }

  /** `ys` is the result of `op` on `a` and `b` as far as `low`. */
  ghost predicate XBuilt(ys: seq<Band>, op: Op, a: seq<Band>, b: seq<Band>, low: int) {
    && XReady(ys, low)
    && forall v :: XIn(ys, v) <==> (v < low && Apply(op, XIn(a, v), XIn(b, v)))
  }

  lemma XBuiltStep(ys: seq<Band>, zs: seq<Band>, op: Op, a: seq<Band>, i: nat, c0: Band, b: seq<Band>, j: nat, c1: Band,
      low: int)
    requires XNormal(a) && XNormal(b) && XCursor(a, i, low, c0) && XCursor(b, j, low, c1)
    requires !IsEmpty(c0) && !IsEmpty(c1)
    requires low < Min(c0.b, c1.b) < INT_MAX
    requires low <= c0.s && low <= c1.s
    requires XBuilt(ys, op, a, b, low) && XStep(ys, zs, op, c0, c1)
    ensures XBuilt(zs, op, a, b, Min(c0.b, c1.b))
  {
    var cut := Min(c0.b, c1.b);
    forall v ensures XIn(zs, v) <==> (v < cut && Apply(op, XIn(a, v), XIn(b, v))) {
      if low <= v < cut {
        XCursorSlice(a, i, low, c0, cut, v);
        XCursorSlice(b, j, low, c1, cut, v);
      }
    }
  }

  /** Nothing of either list reaches `low`, so the result is complete. */
  lemma XBuiltAll(ys: seq<Band>, op: Op, a: seq<Band>, b: seq<Band>, low: int)
    requires XBuilt(ys, op, a, b, low) && XEndsBy(a, low) && XEndsBy(b, low)
    ensures forall v :: XIn(ys, v) <==> Apply(op, XIn(a, v), XIn(b, v))
  {
  }

  /**
   * The x-sweep over two rows.  Every step settles at least one input band and writes at most one
   * band, so the room for both lists together is enough.
   */
  method SweepX(buf: array<Band>, base: nat, a0: array<Band>, x0: nat, ghost xs0: seq<Band>,
                a1: array<Band>, x1: nat, ghost xs1: seq<Band>, op: Op)
    returns (cob: nat)
    requires a0 != buf && a1 != buf
    requires XAt(a0[..], x0, xs0) && XNormal(xs0) && XInRange(xs0)
    requires XAt(a1[..], x1, xs1) && XNormal(xs1) && XInRange(xs1)
    requires base + |xs0| + |xs1| + 1 <= buf.Length
    modifies buf
    ensures base <= cob <= base + |xs0| + |xs1|
    ensures buf[..base] == old(buf[..base])
    ensures XNormal(buf[base..cob]) && XInRange(buf[base..cob])
    ensures forall v :: XIn(buf[base..cob], v) <==> Apply(op, XIn(xs0, v), XIn(xs1, v))
  {
    hide XIn, XNormal, XInRange, XReady, XStep, XBuilt, XAt, XCursor;
    ghost var f0, f1 := a0[..], a1[..];
    var pcxb0, pcxb1 := x0, x1;
    BandAt(f0, x0, xs0, 0);
    BandAt(f1, x1, xs1, 0);
    var pb0, pb1 := a0[pcxb0], a1[pcxb1];
    var prevxb := -1;
    cob := base;
    ghost var i, j, low := 0, 0, INT_MIN;
    StartX(op, xs0, xs1, pb0, pb1);
    assert buf[base..cob] == [];
    while !(IsEmpty(a0[pcxb0]) && IsEmpty(a1[pcxb1]))
      invariant pcxb0 == x0 + i < a0.Length && pcxb1 == x1 + j < a1.Length
      invariant i <= |xs0| && (i == |xs0| <==> IsEmpty(a0[pcxb0]))
      invariant j <= |xs1| && (j == |xs1| <==> IsEmpty(a1[pcxb1]))
      invariant XCursor(xs0, i, low, pb0) && XCursor(xs1, j, low, pb1)
      invariant base <= cob <= base + i + j && prevxb == PrevX(base, cob)
      invariant INT_MIN <= low < INT_MAX
      invariant XBuilt(buf[base..cob], op, xs0, xs1, low)
      invariant buf[..base] == old(buf[..base])
      decreases |xs0| + |xs1| - i - j
    {
      // the marker lies above every band, so it always is the leftover
      OrMarker(xs0, i, low, pb0);
      OrMarker(xs1, j, low, pb1);
      if IsEmpty(pb0) {
        pb0 := MAX_INVALID;
      }
      if IsEmpty(pb1) {
        pb1 := MAX_INVALID;
      }
      ghost var ys := buf[base..cob];
      var nrb, botb0, obb;
      OperandsX(xs0, i, xs1, j, low, pb0, pb1, ys, op);
      nrb, botb0, obb, prevxb := BandOp(buf, base, prevxb, cob, pb0, pb1, op);
      cob := cob + nrb;
      ghost var cut := Min(pb0.b, pb1.b);
      XBuiltStep(ys, buf[base..cob], op, xs0, i, pb0, xs1, j, pb1, low);
      assert a0[..] == f0 && a1[..] == f1;
      if pb0.b == cut {
        UsedUp(f0, x0, xs0, i, low, pb0, cut);
      } else {
        XCursorRest(xs0, i, low, pb0, cut);
      }
      if pb1.b == cut {
        UsedUp(f1, x1, xs1, j, low, pb1, cut);
      } else {
        XCursorRest(xs1, j, low, pb1, cut);
      }
      if IsEmpty(obb) {
        pcxb0, pcxb1 := pcxb0 + 1, pcxb1 + 1;
        pb0, pb1 := a0[pcxb0], a1[pcxb1];
        i, j := i + 1, j + 1;
      } else if botb0 {
        pcxb1 := pcxb1 + 1;
        pb0, pb1 := obb, a1[pcxb1];
        j := j + 1;
      } else {
        pcxb0 := pcxb0 + 1;
        pb0, pb1 := a0[pcxb0], obb;
        i := i + 1;
      }
      low := cut;
    }
    AllSettled(xs0, low, pb0);
    AllSettled(xs1, low, pb1);
    XBuiltAll(buf[base..cob], op, xs0, xs1, low);
    BuiltReady(buf[base..cob], op, xs0, xs1, low);
  }

  lemma BandAt(f: seq<Band>, x: nat, xs: seq<Band>, i: nat)
    requires XAt(f, x, xs) && i <= |xs|
    ensures x + i < |f| && (i == |xs| <==> IsEmpty(f[x + i])) && (i < |xs| ==> f[x + i] == xs[i])
  {
    assert i < |xs| ==> f[x..x + |xs|][i] == xs[i];
  }

  lemma OrMarker(xs: seq<Band>, i: nat, low: int, cur: Band)
    requires XNormal(xs) && XCursor(xs, i, low, cur)
    ensures IsEmpty(cur) ==> XCursor(xs, i, low, MAX_INVALID)
  {
  }

  /** The band is used up: the cursor goes to the next one, or to the sentinel. */
  lemma UsedUp(f: seq<Band>, x: nat, xs: seq<Band>, i: nat, low: int, cur: Band, cut: int)
    requires XAt(f, x, xs) && XNormal(xs) && XCursor(xs, i, low, cur)
    requires !IsEmpty(cur) && low < cut == cur.b < INT_MAX
    ensures i < |xs| && x + i + 1 < |f| && XCursor(xs, i + 1, cut, f[x + i + 1])
    ensures i + 1 == |xs| <==> IsEmpty(f[x + i + 1])
  {
    BandAt(f, x, xs, i + 1);
  }

  lemma XCursorRest(xs: seq<Band>, i: nat, low: int, cur: Band, cut: int)
    requires XCursor(xs, i, low, cur) && !IsEmpty(cur) && low < cut < cur.b && cut < INT_MAX
    ensures XCursor(xs, i, cut, Trim(cur, cut))
  {
  }

  lemma AllSettled(xs: seq<Band>, low: int, cur: Band)
    requires XCursor(xs, |xs|, low, cur)
    ensures XEndsBy(xs, low)
  {
  }

  lemma StartX(op: Op, xs0: seq<Band>, xs1: seq<Band>, b0: Band, b1: Band)
    requires XNormal(xs0) && XInRange(xs0) && XNormal(xs1) && XInRange(xs1)
    requires if xs0 == [] then IsEmpty(b0) else b0 == xs0[0]
    requires if xs1 == [] then IsEmpty(b1) else b1 == xs1[0]
    ensures XCursor(xs0, 0, INT_MIN, b0) && XCursor(xs1, 0, INT_MIN, b1)
    ensures XBuilt([], op, xs0, xs1, INT_MIN)
  {
  }

  lemma BuiltReady(ys: seq<Band>, op: Op, a: seq<Band>, b: seq<Band>, low: int)
    requires XBuilt(ys, op, a, b, low)
    ensures XNormal(ys) && XInRange(ys)
  {
  }

  lemma OperandsX(xs0: seq<Band>, i: nat, xs1: seq<Band>, j: nat, low: int, b0: Band, b1: Band, ys: seq<Band>, op: Op)
    requires XNormal(xs0) && XInRange(xs0) && XNormal(xs1) && XInRange(xs1)
    requires XCursor(xs0, i, low, b0) && XCursor(xs1, j, low, b1) && (i < |xs0| || j < |xs1|)
    requires !IsEmpty(b0) && !IsEmpty(b1) && INT_MIN <= low < INT_MAX
    requires XBuilt(ys, op, xs0, xs1, low)
    ensures Operand(b0) && Operand(b1) && (InRange(b0) || InRange(b1))
    ensures XReady(ys, Min(b0.s, b1.s))
    ensures low < Min(b0.b, b1.b) < INT_MAX && low <= b0.s && low <= b1.s
  {
  }
}
