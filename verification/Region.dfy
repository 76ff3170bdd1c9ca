/** Regions as flat band arrays: union, intersection and difference by one sweep. */
module Region {
  import opened Band
  import opened RegionSpec
  import opened RegionX
  import opened RegionSweepX
  import opened RegionY

  /** An operand of a y-step: a legal row, or the marker of a region that ran out. */
  ghost predicate RowOperand(y: Band, xs: seq<Band>) {
    RowOk(y, xs) || (y == MAX_INVALID && xs == [MAX_INVALID])
  }

  ghost predicate InBoth(y: Band, xs: seq<Band>, u: int, v: int) {
    Has(y, v) && XIn(xs, u)
  }

  /** `zs` extends `rows` by exactly what `op` makes of two rows below the nearer of their ends. */
  ghost predicate YStep(rows: seq<Row>, zs: seq<Row>, op: Op, y0: Band, xs0: seq<Band>, y1: Band, xs1: seq<Band>) {
    && NormalForm(zs) && RowsEndBy(zs, Min(y0.b, y1.b))
    && forall u, v :: RowIn(zs, u, v) <==>
         (RowIn(rows, u, v) || (v < Min(y0.b, y1.b) && Apply(op, InBoth(y0, xs0, u, v), InBoth(y1, xs1, u, v))))
  }

  function Lowered(rows: seq<Row>, op: Op, lho: bool, ys: Band, xss: seq<Band>, yb: Band): seq<Row> {
    if KeepsAlone(op, lho) then RowAppend(rows, LowerPart(ys, yb), xss) else rows
  }

  lemma LoweredCorrect(rows: seq<Row>, op: Op, lho: bool, ys: Band, xss: seq<Band>, yb: Band)
    requires RowOk(ys, xss) && !IsEmpty(yb) && ys.s <= yb.s
    requires NormalForm(rows) && RowsEndBy(rows, ys.s)
    ensures var ms := Lowered(rows, op, lho, ys, xss, yb);
            && NormalForm(ms) && RowsEndBy(ms, Min(ys.b, yb.s))
            && forall u, v :: RowIn(ms, u, v) <==>
                 (RowIn(rows, u, v) || (KeepsAlone(op, lho) && InBoth(LowerPart(ys, yb), xss, u, v)))
  {
    hide XIn, XNormal, XInRange, NormalForm, RowIn, RowAppend;
    var low := LowerPart(ys, yb);
    if KeepsAlone(op, lho) {
      if IsEmpty(low) {
        AppendEmpty(rows, low, xss);
      } else {
        RowAppendNormal(rows, low, xss);
        RowAppendPoints(rows, low, xss);
      }
    }
  }

  lemma AppendEmpty(rows: seq<Row>, y: Band, xs: seq<Band>)
    requires IsEmpty(y)
    ensures RowAppend(rows, y, xs) == rows
  {
  }

  /** What a step emits, point by point. */
  lemma RowPartsApply(op: Op, lho: bool, ys: Band, xss: seq<Band>, yb: Band, xsb: seq<Band>, xs: seq<Band>,
                          u: int, v: int)
    requires !IsEmpty(ys) && !IsEmpty(yb) && ys.s <= yb.s
    requires IsEmpty(CommonPart(ys, yb)) || (XIn(xs, u) <==>
      if lho then Apply(op, XIn(xss, u), XIn(xsb, u)) else Apply(op, XIn(xsb, u), XIn(xss, u)))
    ensures ((KeepsAlone(op, lho) && InBoth(LowerPart(ys, yb), xss, u, v)) || InBoth(CommonPart(ys, yb), xs, u, v)) <==>
      (v < Min(ys.b, yb.b) &&
       if lho then Apply(op, InBoth(ys, xss, u, v), InBoth(yb, xsb, u, v))
       else Apply(op, InBoth(yb, xsb, u, v), InBoth(ys, xss, u, v)))
  {
    hide XIn;
  }

  lemma EmitRowsCorrect(rows: seq<Row>, zs: seq<Row>, op: Op, lho: bool, ys: Band, xss: seq<Band>,
                        yb: Band, xsb: seq<Band>, xs: seq<Band>)
    requires RowOk(ys, xss) && RowOperand(yb, xsb) && ys.s <= yb.s
    requires NormalForm(rows) && RowsEndBy(rows, ys.s)
    requires IsEmpty(CommonPart(ys, yb)) || (if lho then RowOf(xs, op, xss, xsb) else RowOf(xs, op, xsb, xss))
    requires var ms := Lowered(rows, op, lho, ys, xss, yb);
      zs == if xs == [] then ms else RowAppend(ms, CommonPart(ys, yb), xs)
    ensures if lho then YStep(rows, zs, op, ys, xss, yb, xsb) else YStep(rows, zs, op, yb, xsb, ys, xss)
  {
    hide XIn, XNormal, XInRange, NormalForm, RowIn, RowAppend, Lowered;
    var ms, mid := Lowered(rows, op, lho, ys, xss, yb), CommonPart(ys, yb);
    LoweredCorrect(rows, op, lho, ys, xss, yb);
    EmptyRow(xs);
    if xs != [] {
      if IsEmpty(mid) {
        AppendEmpty(ms, mid, xs);
      } else {
        RowAppendNormal(ms, mid, xs);
        RowAppendPoints(ms, mid, xs);
      }
    }
    assert forall u, v :: RowIn(zs, u, v) <==> (RowIn(ms, u, v) || InBoth(mid, xs, u, v));
    forall u, v
      ensures RowIn(zs, u, v) <==> (RowIn(rows, u, v) || (v < Min(ys.b, yb.b) &&
        if lho then Apply(op, InBoth(ys, xss, u, v), InBoth(yb, xsb, u, v))
        else Apply(op, InBoth(yb, xsb, u, v), InBoth(ys, xss, u, v))))
    {
      RowPartsApply(op, lho, ys, xss, yb, xsb, xs, u, v);
    }
  }

  lemma EmptyRow(xs: seq<Band>)
    ensures xs == [] ==> forall u :: !XIn(xs, u)
  {
  }

  /** Room for one y-step, given the sizes of the two rows with their sentinels. */
  function RbandMaxRequiredOutbands(rb0sz: nat, rb1sz: nat): nat {
    (if rb0sz > rb1sz then rb0sz else rb1sz) * 2 + rb0sz + rb1sz + 1
  }

  /**
   * One step of the y-sweep: settles everything above the nearer lower edge of the two rows, and
   * hands back the y-band left of the farther one.
   */
  method RbandOp(buf: array<Band>, ghost rows: seq<Row>, prevrb: int, outb: nat,
                 yb0: Band, a0: array<Band>, x0: nat, ghost xs0: seq<Band>, ghost sz0: nat,
                 yb1: Band, a1: array<Band>, x1: nat, ghost xs1: seq<Band>, ghost sz1: nat, op: Op)
    returns (n: nat, botrb0: bool, yobb: Band, newPrevrb: int, ghost zs: seq<Row>)
    requires a0 != buf && a1 != buf && XAt(a0[..], x0, xs0) && XAt(a1[..], x1, xs1)
    requires RowOperand(yb0, xs0) && RowOperand(yb1, xs1) && (RowOk(yb0, xs0) || RowOk(yb1, xs1))
    requires RowOk(yb0, xs0) ==> sz0 == |xs0| + 2
    requires RowOk(yb1, xs1) ==> sz1 == |xs1| + 2
    requires outb + RbandMaxRequiredOutbands(sz0, sz1) <= buf.Length
    requires Holds(buf[..outb], rows, prevrb) && RowsEndBy(rows, Min(yb0.s, yb1.s))
    modifies buf
    ensures n < RbandMaxRequiredOutbands(sz0, sz1)
    ensures Holds(buf[..outb + n], zs, newPrevrb) && YStep(rows, zs, op, yb0, xs0, yb1, xs1)
    ensures yobb == Trim(if botrb0 then yb0 else yb1, Min(yb0.b, yb1.b))
    ensures IsEmpty(yobb) <==> yb0.b == yb1.b
    ensures !IsEmpty(yobb) ==> (botrb0 <==> yb1.b < yb0.b)
  {
    hide XIn, XNormal, XInRange, NormalForm, RowIn, RowAppend, XAt, Encode, AllNonEmpty, PrevRow;
    hide UpperPart, LayoutOf, Trim;
    var ybs, arrs, xbss, ybb, rbs0 := yb1, a1, x1, yb0, false;
    ghost var xss, xsb := xs1, xs0;
    if yb0.s < yb1.s {
      ybs, arrs, xbss, ybb, rbs0 := yb0, a0, x0, yb1, true;
      xss, xsb := xs0, xs1;
    }
    var pos, obs, obo;
    pos, obs, obo, yobb := AnalyzeLayout(ybs, ybb);
    var cob := outb;
    newPrevrb := prevrb;
    LoweredCorrect(rows, op, rbs0, ybs, xss, ybb);

    // the lower part, covered by one row only
    var nrb := RbandOpNoOverlap(buf, rows, newPrevrb, cob, obs, arrs, xbss, xss, op, rbs0);
    ghost var ms := Lowered(rows, op, rbs0, ybs, xss, ybb);
    if nrb > 0 {
      newPrevrb := cob;
      cob := cob + nrb;
    }
    assert Holds(buf[..cob], ms, newPrevrb);

    // the part covered by both
    ghost var xs;
    nrb, xs := RbandOpOverlap(buf, ms, newPrevrb, cob, obo, a0, x0, xs0, a1, x1, xs1, op);
    zs := if xs == [] then ms else RowAppend(ms, obo, xs);
    if nrb > 0 {
      newPrevrb := cob;
      cob := cob + nrb;
    }
    EmitRowsCorrect(rows, zs, op, rbs0, ybs, xss, ybb, xsb, xs);

    botrb0 := (rbs0 && pos == Subset) || (!rbs0 && pos != Subset);
    BottomIs(yb0, yb1, ybs, ybb, rbs0, botrb0);
    n := cob - outb;
  }

  // ----- the y-sweep

  /** The sweep has settled every row of `rows` below `low`; `cur` is the y-band left of row `k`. */
  ghost predicate YCursor(rows: seq<Row>, k: nat, low: int, cur: Band) {
    && k <= |rows|
    && (forall j :: 0 <= j < k ==> rows[j].y.b <= low)
    && (k < |rows| ==> cur == Trim(rows[k].y, low) && low < rows[k].y.b)
  }

  /** The band that takes part in a step. */
  function CurrentY(rows: seq<Row>, k: nat, cur: Band): Band {
    if k < |rows| then cur else MAX_INVALID
  }

  function CurrentXs(rows: seq<Row>, k: nat): seq<Band> {
    if k < |rows| then rows[k].xs else [MAX_INVALID]
  }

  lemma YCursorSlice(rows: seq<Row>, k: nat, low: int, cur: Band, cut: int, u: int, v: int)
    requires WellFormed(rows) && YCursor(rows, k, low, cur)
    requires low <= v < cut <= CurrentY(rows, k, cur).b && cut < INT_MAX
    ensures RowIn(rows, u, v) <==> InBoth(CurrentY(rows, k, cur), CurrentXs(rows, k), u, v)
  {
    hide XIn, RowOk;
    if k < |rows| && Has(cur, v) && XIn(rows[k].xs, u) {
      assert Has(rows[k].y, v);
    }
    if RowIn(rows, u, v) {
      var i :| 0 <= i < |rows| && Has(rows[i].y, v) && XIn(rows[i].xs, u);
      assert i == k;
    }
  }

  lemma YCursorNext(rows: seq<Row>, k: nat, low: int, cur: Band, cut: int, next: Band)
    requires WellFormed(rows) && YCursor(rows, k, low, cur)
    requires low < cut <= CurrentY(rows, k, cur).b && cut < INT_MAX
    ensures CurrentY(rows, k, cur).b == cut ==> k < |rows|
    ensures CurrentY(rows, k, cur).b == cut && (k + 1 < |rows| ==> next == rows[k + 1].y) ==>
      YCursor(rows, k + 1, cut, next)
    ensures CurrentY(rows, k, cur).b > cut ==> YCursor(rows, k, cut, Trim(CurrentY(rows, k, cur), cut))
  {
    hide XNormal, XInRange;
    assert k < |rows| ==> RowOk(rows[k].y, rows[k].xs);
    assert k + 1 < |rows| ==> RowOk(rows[k + 1].y, rows[k + 1].xs) && rows[k].y.b <= rows[k + 1].y.s;
  }

  /** `out` is the result of `op` as far as `low`. */
  ghost predicate YBuilt(out: seq<Row>, op: Op, r0: seq<Row>, r1: seq<Row>, low: int) {
    && NormalForm(out) && RowsEndBy(out, low)
    && forall u, v :: RowIn(out, u, v) <==> (v < low && Apply(op, RowIn(r0, u, v), RowIn(r1, u, v)))
  }

  lemma YBuiltAll(out: seq<Row>, op: Op, r0: seq<Row>, r1: seq<Row>, low: int)
    requires YBuilt(out, op, r0, r1, low) && RowsEndBy(r0, low) && RowsEndBy(r1, low)
    ensures NormalForm(out)
    ensures forall u, v :: RowIn(out, u, v) <==> Apply(op, RowIn(r0, u, v), RowIn(r1, u, v))
  {
    hide XIn, NormalForm;
  }

  lemma StartY(op: Op, r0: seq<Row>, r1: seq<Row>)
    requires WellFormed(r0) && WellFormed(r1)
    ensures YBuilt([], op, r0, r1, INT_MIN) && Holds([], [], -1)
  {
    hide XIn, XNormal, XInRange;
    forall u, v ensures RowIn(r0, u, v) ==> v >= INT_MIN {
      if RowIn(r0, u, v) {
        var i :| 0 <= i < |r0| && Has(r0[i].y, v) && XIn(r0[i].xs, u);
        assert RowOk(r0[i].y, r0[i].xs);
      }
    }
    forall u, v ensures RowIn(r1, u, v) ==> v >= INT_MIN {
      if RowIn(r1, u, v) {
        var i :| 0 <= i < |r1| && Has(r1[i].y, v) && XIn(r1[i].xs, u);
        assert RowOk(r1[i].y, r1[i].xs);
      }
    }
  }

  lemma OperandY(rows: seq<Row>, k: nat, low: int, cur: Band)
    requires WellFormed(rows) && YCursor(rows, k, low, cur) && INT_MIN <= low < INT_MAX
    ensures var y := CurrentY(rows, k, cur);
            && RowOperand(y, CurrentXs(rows, k)) && low < y.b <= INT_MAX && low <= y.s
            && (k < |rows| <==> y.b < INT_MAX)
            && (RowOk(y, CurrentXs(rows, k)) <==> k < |rows|)
  {
    hide XNormal, XInRange;
    assert k < |rows| ==> RowOk(rows[k].y, rows[k].xs);
  }

  // ----- positions in the input arrays

  lemma LegalRow(rows: seq<Row>, k: nat)
    requires k < |rows| && WellFormed(rows)
    ensures RowOk(rows[k].y, rows[k].xs) && AllNonEmpty(rows[k].xs)
  {
  }

  lemma RowOffset(rows: seq<Row>, k: nat)
    requires k <= |rows| && WellFormed(rows)
    ensures var f := Encode(rows) + [EMPTY]; var at := |Encode(rows[..k])|;
            if k == |rows| then at == |f| - 1 && f[at] == EMPTY
            else RowAt(f, at, rows[k]) && |Encode(rows[..k + 1])| == at + |rows[k].xs| + 2
  {
    hide XNormal, XInRange, Encode, WellFormed, RowAt;
    if k < |rows| {
      LegalRow(rows, k);
      LastRowAt(rows[..k + 1]);
      assert rows[..k + 1][..k] == rows[..k];
      assert rows == rows[..k + 1] + rows[k + 1..];
      EncodeConcat(rows[..k + 1], rows[k + 1..]);
      RowAtPrefix(Encode(rows[..k + 1]), Encode(rows) + [EMPTY], |Encode(rows[..k])|, rows[k]);
    } else {
      assert rows[..k] == rows;
    }
  }

  /** Where an operand's sweep stands in its array. */
  ghost predicate At(f: seq<Band>, rows: seq<Row>, k: nat, rb: nat, sz: nat) {
    && f == Encode(rows) + [EMPTY] && k <= |rows|
    && rb == |Encode(rows[..k])|
    && sz == (if k < |rows| then |rows[k].xs| + 2 else 1)
  }

  /** Size of the row at `rb`, up to and including the first empty band. */
  method RbandBsz(g: array<Band>, rb: nat, ghost rows: seq<Row>, ghost k: nat) returns (sz: nat)
    requires WellFormed(rows) && g[..] == Encode(rows) + [EMPTY]
    requires k <= |rows| && rb == |Encode(rows[..k])|
    ensures At(g[..], rows, k, rb, sz)
    ensures rb < g.Length && (k == |rows| <==> IsEmpty(g[rb]))
    ensures k < |rows| ==> g[rb] == rows[k].y && XAt(g[..], rb + 1, rows[k].xs)
  {
    hide XNormal, XInRange, Encode;
    RowOffset(rows, k);
    ghost var f := g[..];
    assert k < |rows| ==> RowOk(rows[k].y, rows[k].xs);
    ghost var n := if k < |rows| then |rows[k].xs| + 1 else 0;
    assert forall i :: rb < i < rb + n ==> f[i] == f[rb + 1..rb + n][i - rb - 1];
    assert f[rb] == g[rb];
    var p := rb;
    while !IsEmpty(g[p])
      invariant rb <= p <= rb + n < g.Length
      decreases rb + n - p
    {
      assert f[p] == g[p];
      p := p + 1;
    }
    assert f[p] == g[p];
    sz := p - rb + 1;
  }

  /** Makes room for `required` more bands, doubling the buffer as often as it takes. */
  method Expand(buf: array<Band>, sz: nat, required: nat) returns (r: array<Band>)
    requires sz <= buf.Length && buf.Length > 0
    ensures r == buf || fresh(r)
    ensures sz + required <= r.Length && r.Length > 0
    ensures r[..sz] == buf[..sz]
  {
    r := buf;
    while required > r.Length - sz
      invariant r == buf || fresh(r)
      invariant sz <= r.Length && r.Length > 0 && r[..sz] == buf[..sz]
      decreases sz + required - r.Length
    {
      var bigger := new Band[r.Length * 2];
      forall i | 0 <= i < r.Length {
        bigger[i] := r[i];
      }
      assert bigger[..sz] == r[..sz];
      r := bigger;
    }
  }

  method Shrink(buf: array<Band>, sz: nat) returns (r: array<Band>)
    requires sz <= buf.Length
    ensures fresh(r) && r[..] == buf[..sz]
  {
    r := new Band[sz];
    forall i | 0 <= i < sz {
      r[i] := buf[i];
    }
  }

  lemma MarkerRow(f: seq<Band>)
    requires f == [MAX_INVALID, MAX_INVALID, EMPTY]
    ensures XAt(f, 1, [MAX_INVALID])
  {
  }

  lemma NormalWellFormed(rows: seq<Row>)
    requires NormalForm(rows)
    ensures WellFormed(rows)
  {
  }

  lemma BuiltEndsBy(out: seq<Row>, op: Op, r0: seq<Row>, r1: seq<Row>, low: int, limit: int)
    requires YBuilt(out, op, r0, r1, low) && low <= limit
    ensures RowsEndBy(out, limit)
  {
  }

  /** One operand of the y-sweep: where it stands in its array and what is left of its row. */
  ghost predicate Standing(f: seq<Band>, rows: seq<Row>, k: nat, rb: nat, sz: nat, low: int, yb: Band) {
    && WellFormed(rows) && At(f, rows, k, rb, sz) && YCursor(rows, k, low, yb)
    && rb < |f| && (k == |rows| <==> IsEmpty(f[rb]))
    && (k < |rows| ==> XAt(f, rb + 1, rows[k].xs))
  }

  /** A region that ran out takes part with the marker, which lies above every row. */
  method EmptyCheck(g: array<Band>, ghost rows: seq<Row>, ghost k: nat, rb: nat, ghost sz: nat,
                    ghost low: int, yb: Band, marker: array<Band>)
    returns (y: Band, arr: array<Band>, xbs: nat)
    requires Standing(g[..], rows, k, rb, sz, low, yb) && INT_MIN <= low < INT_MAX
    requires marker[..] == [MAX_INVALID, MAX_INVALID, EMPTY]
    ensures arr == g || arr == marker
    ensures y == CurrentY(rows, k, yb) && XAt(arr[..], xbs, CurrentXs(rows, k))
    ensures RowOperand(y, CurrentXs(rows, k)) && low < y.b <= INT_MAX && low <= y.s
    ensures k < |rows| <==> y.b < INT_MAX
    ensures RowOk(y, CurrentXs(rows, k)) <==> k < |rows|
    ensures k < |rows| ==> sz == |CurrentXs(rows, k)| + 2
  {
    OperandY(rows, k, low, yb);
    y, arr, xbs := yb, g, rb + 1;
    if IsEmpty(g[rb]) {
      MarkerRow(marker[..]);
      y, arr, xbs := MAX_INVALID, marker, 1;
    }
  }

  /** The row is used up: on to the next one. */
  method MoveToNext(g: array<Band>, ghost rows: seq<Row>, ghost k: nat, rb: nat, sz: nat,
                    ghost low: int, ghost yb: Band, ghost cut: int)
    returns (newRb: nat, newSz: nat, newYb: Band)
    requires Standing(g[..], rows, k, rb, sz, low, yb)
    requires low < cut == CurrentY(rows, k, yb).b < INT_MAX
    ensures k < |rows| && Standing(g[..], rows, k + 1, newRb, newSz, cut, newYb)
  {
    hide XNormal, XInRange, XIn, WellFormed, RowIn, Encode, Rows, XAt, RowOk, PrevRow;
    YCursorNext(rows, k, low, yb, cut, yb);
    RowOffset(rows, k);
    newRb := rb + sz;
    newSz := RbandBsz(g, newRb, rows, k + 1);
    newYb := g[newRb];
    YCursorNext(rows, k, low, yb, cut, newYb);
  }

  lemma StayWithRest(f: seq<Band>, rows: seq<Row>, k: nat, rb: nat, sz: nat, low: int, yb: Band, cut: int)
    requires Standing(f, rows, k, rb, sz, low, yb)
    requires low < cut < CurrentY(rows, k, yb).b && cut < INT_MAX
    ensures Standing(f, rows, k, rb, sz, cut, Trim(CurrentY(rows, k, yb), cut))
  {
    hide XNormal, XInRange, XIn, WellFormed, RowIn, Encode, Rows, XAt, RowOk, PrevRow;
    YCursorNext(rows, k, low, yb, cut, yb);
  }

  lemma YBuiltStep(out: seq<Row>, zs: seq<Row>, op: Op,
      f0: seq<Band>, r0: seq<Row>, i: nat, rb0: nat, sz0: nat, c0: Band,
      f1: seq<Band>, r1: seq<Row>, j: nat, rb1: nat, sz1: nat, c1: Band, low: int)
    requires Standing(f0, r0, i, rb0, sz0, low, c0) && Standing(f1, r1, j, rb1, sz1, low, c1)
    requires YBuilt(out, op, r0, r1, low)
    requires low <= CurrentY(r0, i, c0).s && low <= CurrentY(r1, j, c1).s
    requires low < Min(CurrentY(r0, i, c0).b, CurrentY(r1, j, c1).b) < INT_MAX
    requires YStep(out, zs, op, CurrentY(r0, i, c0), CurrentXs(r0, i), CurrentY(r1, j, c1), CurrentXs(r1, j))
    ensures YBuilt(zs, op, r0, r1, Min(CurrentY(r0, i, c0).b, CurrentY(r1, j, c1).b))
  {
    hide NormalForm, WellFormed, RowIn, YCursor, RowsEndBy, XIn, At, XAt;
    var cut := Min(CurrentY(r0, i, c0).b, CurrentY(r1, j, c1).b);
    forall u, v ensures RowIn(zs, u, v) <==> (v < cut && Apply(op, RowIn(r0, u, v), RowIn(r1, u, v))) {
      if low <= v < cut {
        YCursorSlice(r0, i, low, c0, cut, u, v);
        YCursorSlice(r1, j, low, c1, cut, u, v);
      }
    }
  }

  lemma Exhausted(f: seq<Band>, rows: seq<Row>, k: nat, rb: nat, sz: nat, low: int, yb: Band)
    requires Standing(f, rows, k, rb, sz, low, yb) && IsEmpty(f[rb])
    ensures RowsEndBy(rows, low)
  {
  }

  lemma SomeRowLeft(f0: seq<Band>, r0: seq<Row>, i: nat, rb0: nat, sz0: nat, c0: Band,
                    f1: seq<Band>, r1: seq<Row>, j: nat, rb1: nat, sz1: nat, c1: Band, low: int)
    requires Standing(f0, r0, i, rb0, sz0, low, c0) && Standing(f1, r1, j, rb1, sz1, low, c1)
    requires !(IsEmpty(f0[rb0]) && IsEmpty(f1[rb1]))
    ensures (i < |r0| || j < |r1|) && i <= |r0| && j <= |r1|
  {
  }

  method Begin(g: array<Band>, ghost rows: seq<Row>) returns (rb: nat, sz: nat, yb: Band)
    requires IsRegion(g[..]) && rows == Rows(g[..])
    ensures Standing(g[..], rows, 0, rb, sz, INT_MIN, yb) && rb < g.Length
  {
    hide XNormal, XInRange, XIn, RowIn, Rows, XAt;
    rb := 0;
    assert rows[..0] == [];
    sz := RbandBsz(g, rb, rows, 0);
    yb := g[rb];
    assert rows != [] ==> RowOk(rows[0].y, rows[0].xs);
  }

  /** What an operation promises: a region in normal form with exactly the points of the set operation. */
  ghost predicate IsResult(op: Op, f0: seq<Band>, f1: seq<Band>, f: seq<Band>) {
    && IsRegion(f) && NormalForm(Rows(f))
    && forall x, y :: Covers(f, x, y) <==> Apply(op, Covers(f0, x, y), Covers(f1, x, y))
  }

  lemma ResultOf(op: Op, f0: seq<Band>, f1: seq<Band>, f: seq<Band>)
    requires IsRegion(f) && NormalForm(Rows(f))
    requires forall u, v :: RowIn(Rows(f), u, v) <==> Apply(op, RowIn(Rows(f0), u, v), RowIn(Rows(f1), u, v))
    ensures IsResult(op, f0, f1, f)
  {
    hide NormalForm, RowIn, Rows;
  }

  /** Ends the region with its sentinel and gives back what was written. */
  method Seal(buf: array<Band>, sz: nat, ghost out: seq<Row>, ghost prevrb: int) returns (g: array<Band>)
    requires sz < buf.Length && Holds(buf[..sz], out, prevrb)
    modifies buf
    ensures fresh(g) && IsRegion(g[..]) && Rows(g[..]) == out
  {
    hide NormalForm, Encode;
    buf[sz] := EMPTY;
    assert buf[..sz + 1] == Encode(out) + [EMPTY];
    NormalWellFormed(out);
    EncodeIsRegion(out);
    g := Shrink(buf, sz + 1);
  }

  /** Moves on past every row that the step used up, keeping what it left of the other. */
  method Advance(g0: array<Band>, ghost r0: seq<Row>, ghost i: nat, rb0: nat, rb0sz: nat, yb0: Band,
                 g1: array<Band>, ghost r1: seq<Row>, ghost j: nat, rb1: nat, rb1sz: nat, yb1: Band,
                 ghost low: int, yobb: Band, botrb0: bool)
    returns (newRb0: nat, newRb0sz: nat, newYb0: Band, ghost newI: nat,
             newRb1: nat, newRb1sz: nat, newYb1: Band, ghost newJ: nat)
    requires Standing(g0[..], r0, i, rb0, rb0sz, low, yb0) && Standing(g1[..], r1, j, rb1, rb1sz, low, yb1)
    requires var y0, y1 := CurrentY(r0, i, yb0), CurrentY(r1, j, yb1); var cut := Min(y0.b, y1.b);
      && low < cut < INT_MAX
      && yobb == Trim(if botrb0 then y0 else y1, cut)
      && (IsEmpty(yobb) <==> y0.b == y1.b)
      && (!IsEmpty(yobb) ==> (botrb0 <==> y1.b < y0.b))
    ensures var cut := Min(CurrentY(r0, i, yb0).b, CurrentY(r1, j, yb1).b);
      && Standing(g0[..], r0, newI, newRb0, newRb0sz, cut, newYb0)
      && Standing(g1[..], r1, newJ, newRb1, newRb1sz, cut, newYb1)
    ensures newI <= |r0| && newJ <= |r1| && newI + newJ > i + j && newRb0 < g0.Length && newRb1 < g1.Length
  {
    hide Standing;
    ghost var cut := Min(CurrentY(r0, i, yb0).b, CurrentY(r1, j, yb1).b);
    newRb0, newRb0sz, newYb0, newI := rb0, rb0sz, yobb, i;
    newRb1, newRb1sz, newYb1, newJ := rb1, rb1sz, yobb, j;
    if IsEmpty(yobb) {
      newRb0, newRb0sz, newYb0 := MoveToNext(g0, r0, i, rb0, rb0sz, low, yb0, cut);
      newRb1, newRb1sz, newYb1 := MoveToNext(g1, r1, j, rb1, rb1sz, low, yb1, cut);
      newI, newJ := i + 1, j + 1;
    } else if botrb0 {
      StayWithRest(g0[..], r0, i, rb0, rb0sz, low, yb0, cut);
      newRb1, newRb1sz, newYb1 := MoveToNext(g1, r1, j, rb1, rb1sz, low, yb1, cut);
      newJ := j + 1;
    } else {
      newRb0, newRb0sz, newYb0 := MoveToNext(g0, r0, i, rb0, rb0sz, low, yb0, cut);
      StayWithRest(g1[..], r1, j, rb1, rb1sz, low, yb1, cut);
      newI := i + 1;
    }
    StandingBound(g0[..], r0, newI, newRb0, newRb0sz, cut, newYb0);
    StandingBound(g1[..], r1, newJ, newRb1, newRb1sz, cut, newYb1);
  }

  lemma StandingBound(f: seq<Band>, rows: seq<Row>, k: nat, rb: nat, sz: nat, low: int, yb: Band)
    requires Standing(f, rows, k, rb, sz, low, yb)
    ensures k <= |rows| && rb < |f|
  {
  }

  /** One turn of the y-sweep: writes what the operation makes of the two current rows below the nearer end. */
  method YTurn(buf: array<Band>, ghost out: seq<Row>, prevrb: int, sz: nat, rbandMaxInvalid: array<Band>, op: Op,
               g0: array<Band>, ghost r0: seq<Row>, ghost i: nat, rb0: nat, rb0sz: nat, yb0: Band,
               g1: array<Band>, ghost r1: seq<Row>, ghost j: nat, rb1: nat, rb1sz: nat, yb1: Band, ghost low: int)
    returns (n: nat, botrb0: bool, yobb: Band, newPrevrb: int, ghost zs: seq<Row>)
    requires buf != g0 && buf != g1 && buf != rbandMaxInvalid
    requires sz + RbandMaxRequiredOutbands(rb0sz, rb1sz) <= buf.Length
    requires rbandMaxInvalid[..] == [MAX_INVALID, MAX_INVALID, EMPTY] && INT_MIN <= low < INT_MAX
    requires Standing(g0[..], r0, i, rb0, rb0sz, low, yb0) && Standing(g1[..], r1, j, rb1, rb1sz, low, yb1)
    requires i < |r0| || j < |r1|
    requires Holds(buf[..sz], out, prevrb) && YBuilt(out, op, r0, r1, low)
    modifies buf
    ensures n < RbandMaxRequiredOutbands(rb0sz, rb1sz) && Holds(buf[..sz + n], zs, newPrevrb)
    ensures var y0, y1 := CurrentY(r0, i, yb0), CurrentY(r1, j, yb1); var cut := Min(y0.b, y1.b);
      && low < cut < INT_MAX && YBuilt(zs, op, r0, r1, cut)
      && yobb == Trim(if botrb0 then y0 else y1, cut)
      && (IsEmpty(yobb) <==> y0.b == y1.b)
      && (!IsEmpty(yobb) ==> (botrb0 <==> y1.b < y0.b))
  {
    hide XNormal, XInRange, XIn, NormalForm, WellFormed, RowIn, Encode, Rows, XAt, RowOk, Trim;
    hide RowsEndBy, PrevRow, At, YCursor, Standing, YBuilt, Holds, YStep;
    var y0, xarr0, xbs0 := EmptyCheck(g0, r0, i, rb0, rb0sz, low, yb0, rbandMaxInvalid);
    var y1, xarr1, xbs1 := EmptyCheck(g1, r1, j, rb1, rb1sz, low, yb1, rbandMaxInvalid);
    ghost var f0, f1 := g0[..], g1[..];
    BuiltEndsBy(out, op, r0, r1, low, Min(y0.s, y1.s));
    n, botrb0, yobb, newPrevrb, zs := RbandOp(buf, out, prevrb, sz,
      y0, xarr0, xbs0, CurrentXs(r0, i), rb0sz, y1, xarr1, xbs1, CurrentXs(r1, j), rb1sz, op);
    YBuiltStep(out, zs, op, f0, r0, i, rb0, rb0sz, yb0, f1, r1, j, rb1, rb1sz, yb1, low);
  }

  lemma RowsOfRegion(f: seq<Band>)
    requires IsRegion(f)
    ensures WellFormed(Rows(f))
  {
  }

  method RgnOp(g0: array<Band>, g1: array<Band>, op: Op) returns (g: array<Band>)
    requires IsRegion(g0[..]) && IsRegion(g1[..])
    ensures fresh(g) && IsResult(op, g0[..], g1[..], g[..])
  {
    hide XNormal, XInRange, XIn, NormalForm, WellFormed, RowIn, Encode, Rows, XAt, RowOk, Trim;
    hide RowsEndBy, PrevRow, At, IsRegion, IsResult, YCursor, Standing, YBuilt, Holds;
    ghost var f0, f1 := g0[..], g1[..];
    ghost var r0, r1 := Rows(f0), Rows(f1);
    var rbandMaxInvalid := new Band[] [MAX_INVALID, MAX_INVALID, EMPTY];
    var buf := new Band[512];
    var sz: nat := 0;
    var rb0, rb0sz, yb0 := Begin(g0, r0);
    var rb1, rb1sz, yb1 := Begin(g1, r1);
    var prevrb := -1;
    ghost var i, j, low, out := 0, 0, INT_MIN, [];
    RowsOfRegion(f0);
    RowsOfRegion(f1);
    StartY(op, r0, r1);
    assert buf[..sz] == [];
    while !(IsEmpty(g0[rb0]) && IsEmpty(g1[rb1]))
      invariant fresh(buf) && sz < buf.Length && buf != rbandMaxInvalid
      invariant 0 <= rb0 < |f0| && 0 <= rb1 < |f1| && 0 <= i && 0 <= j && 0 <= rb0sz && 0 <= rb1sz
      invariant rbandMaxInvalid[..] == [MAX_INVALID, MAX_INVALID, EMPTY]
      invariant Standing(f0, r0, i, rb0, rb0sz, low, yb0) && Standing(f1, r1, j, rb1, rb1sz, low, yb1)
      invariant INT_MIN <= low < INT_MAX
      invariant Holds(buf[..sz], out, prevrb) && YBuilt(out, op, r0, r1, low)
      decreases |r0| + |r1| - i - j
    {
      assert g0[rb0] == f0[rb0] && g1[rb1] == f1[rb1];
      SomeRowLeft(f0, r0, i, rb0, rb0sz, yb0, f1, r1, j, rb1, rb1sz, yb1, low);
      assert g0[..] == f0 && g1[..] == f1;
      var bsz := RbandMaxRequiredOutbands(rb0sz, rb1sz);
      buf := Expand(buf, sz, bsz + 1);
      ghost var cut := Min(CurrentY(r0, i, yb0).b, CurrentY(r1, j, yb1).b);
      var n, botrb0, yobb;
      n, botrb0, yobb, prevrb, out := YTurn(buf, out, prevrb, sz, rbandMaxInvalid, op,
        g0, r0, i, rb0, rb0sz, yb0, g1, r1, j, rb1, rb1sz, yb1, low);
      sz := sz + n;
      rb0, rb0sz, yb0, i, rb1, rb1sz, yb1, j :=
        Advance(g0, r0, i, rb0, rb0sz, yb0, g1, r1, j, rb1, rb1sz, yb1, low, yobb, botrb0);
      low := cut;
    }
    Exhausted(f0, r0, i, rb0, rb0sz, low, yb0);
    Exhausted(f1, r1, j, rb1, rb1sz, low, yb1);
    YBuiltAll(out, op, r0, r1, low);
    g := Seal(buf, sz, out, prevrb);
    ResultOf(op, f0, f1, g[..]);
  }
}
