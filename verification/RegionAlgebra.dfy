/** Laws of the region operations, as equalities of band arrays, and the operations on rectangles. */
module RegionAlgebra {
  import opened Band
  import opened RegionSpec
  import opened Region
  import opened RegionSweepX
  import opened RegionY

  /** Two results with the same points are the same array. */
  lemma SameArray(f: seq<Band>, g: seq<Band>)
    requires IsRegion(f) && IsRegion(g) && NormalForm(Rows(f)) && NormalForm(Rows(g))
    requires forall x, y :: Covers(f, x, y) <==> Covers(g, x, y)
    ensures f == g
  {
    hide NormalForm, RowIn, Rows, Encode;
    forall x, y ensures RowIn(Rows(f), x, y) <==> RowIn(Rows(g), x, y) {
      assert Covers(f, x, y) <==> Covers(g, x, y);
    }
    RowsUnique(Rows(f), Rows(g));
  }

  lemma ResultPoint(op: Op, a: seq<Band>, b: seq<Band>, r: seq<Band>, x: int, y: int)
    requires IsResult(op, a, b, r)
    ensures Covers(r, x, y) <==> Apply(op, Covers(a, x, y), Covers(b, x, y))
  {
  }

  lemma Commutes(op: Op, a: seq<Band>, b: seq<Band>, ab: seq<Band>, ba: seq<Band>)
    requires op != Diff && IsResult(op, a, b, ab) && IsResult(op, b, a, ba)
    ensures ab == ba
  {
    hide Covers, NormalForm, IsRegion;
    forall x, y ensures Covers(ab, x, y) <==> Covers(ba, x, y) {
      ResultPoint(op, a, b, ab, x, y);
      ResultPoint(op, b, a, ba, x, y);
    }
    SameArray(ab, ba);
  }

  lemma Associates(op: Op, a: seq<Band>, b: seq<Band>, c: seq<Band>,
                   ab: seq<Band>, abThenC: seq<Band>, bc: seq<Band>, aThenBc: seq<Band>)
    requires op != Diff
    requires IsResult(op, a, b, ab) && IsResult(op, ab, c, abThenC)
    requires IsResult(op, b, c, bc) && IsResult(op, a, bc, aThenBc)
    ensures abThenC == aThenBc
  {
    hide Covers, NormalForm, IsRegion, IsResult;
    forall x, y ensures Covers(abThenC, x, y) <==> Covers(aThenBc, x, y) {
      ResultPoint(op, a, b, ab, x, y);
      ResultPoint(op, ab, c, abThenC, x, y);
      ResultPoint(op, b, c, bc, x, y);
      ResultPoint(op, a, bc, aThenBc, x, y);
    }
    ResultIsNormal(op, ab, c, abThenC);
    ResultIsNormal(op, a, bc, aThenBc);
    SameArray(abThenC, aThenBc);
  }

  lemma ResultIsNormal(op: Op, a: seq<Band>, b: seq<Band>, r: seq<Band>)
    requires IsResult(op, a, b, r)
    ensures IsRegion(r) && NormalForm(Rows(r))
  {
  }

  /** Intersection is what two differences leave. */
  lemma IntersectIsDiffOfDiff(a: seq<Band>, b: seq<Band>, i: seq<Band>, d: seq<Band>, dd: seq<Band>)
    requires IsResult(Intersect, a, b, i) && IsResult(Diff, a, b, d) && IsResult(Diff, a, d, dd)
    ensures i == dd
  {
    hide Covers, NormalForm, IsRegion, IsResult;
    forall x, y ensures Covers(i, x, y) <==> Covers(dd, x, y) {
      ResultPoint(Intersect, a, b, i, x, y);
      ResultPoint(Diff, a, b, d, x, y);
      ResultPoint(Diff, a, d, dd, x, y);
    }
    ResultIsNormal(Intersect, a, b, i);
    ResultIsNormal(Diff, a, d, dd);
    SameArray(i, dd);
  }

  /** Cutting a normal region in two and joining the parts gives the very same array back. */
  lemma PartsJoin(a: seq<Band>, b: seq<Band>, i: seq<Band>, d: seq<Band>, u: seq<Band>)
    requires IsRegion(a) && NormalForm(Rows(a))
    requires IsResult(Intersect, a, b, i) && IsResult(Diff, a, b, d) && IsResult(Union, d, i, u)
    ensures u == a
  {
    hide Covers, NormalForm, IsRegion, IsResult;
    forall x, y ensures Covers(u, x, y) <==> Covers(a, x, y) {
      ResultPoint(Intersect, a, b, i, x, y);
      ResultPoint(Diff, a, b, d, x, y);
      ResultPoint(Union, d, i, u, x, y);
    }
    ResultIsNormal(Union, d, i, u);
    SameArray(u, a);
  }

  lemma Distributes(a: seq<Band>, b: seq<Band>, c: seq<Band>,
                    bc: seq<Band>, l: seq<Band>, ab: seq<Band>, ac: seq<Band>, r: seq<Band>)
    requires IsResult(Union, b, c, bc) && IsResult(Intersect, a, bc, l)
    requires IsResult(Intersect, a, b, ab) && IsResult(Intersect, a, c, ac) && IsResult(Union, ab, ac, r)
    ensures l == r
  {
    hide Covers, NormalForm, IsRegion, IsResult;
    forall x, y ensures Covers(l, x, y) <==> Covers(r, x, y) {
      ResultPoint(Union, b, c, bc, x, y);
      ResultPoint(Intersect, a, bc, l, x, y);
      ResultPoint(Intersect, a, b, ab, x, y);
      ResultPoint(Intersect, a, c, ac, x, y);
      ResultPoint(Union, ab, ac, r, x, y);
    }
    ResultIsNormal(Intersect, a, bc, l);
    ResultIsNormal(Union, ab, ac, r);
    SameArray(l, r);
  }

  // ----- rectangles

  datatype Rect = Rect(yb: Band, xb: Band)

  predicate RectHas(r: Rect, x: int, y: int) {
    Has(r.yb, y) && Has(r.xb, x)
  }

  predicate RectEmpty(r: Rect) {
    IsEmpty(r.yb) || IsEmpty(r.xb)
  }

  /** The region of one rectangle. */
  method MutateRectToRgnbands(r: Rect) returns (g: array<Band>)
    requires RectEmpty(r) || (InRange(r.yb) && InRange(r.xb))
    ensures fresh(g) && IsRegion(g[..]) && NormalForm(Rows(g[..]))
    ensures forall x, y :: Covers(g[..], x, y) <==> RectHas(r, x, y)
  {
    if RectEmpty(r) {
      g := new Band[] [EMPTY];
      OneRow([]);
      assert g[..] == Encode([]) + [EMPTY];
    } else {
      g := new Band[] [r.yb, r.xb, EMPTY, EMPTY];
      var row := Row(r.yb, [r.xb]);
      OneRow([row]);
      assert [row][..0] == [];
      assert g[..] == Encode([row]) + [EMPTY];
      assert forall x :: XIn([r.xb], x) <==> Has([r.xb][0], x);
      assert forall x, y :: RowIn([row], x, y) <==> Has([row][0].y, y) && XIn([r.xb], x);
    }
  }

  lemma OneRow(rows: seq<Row>)
    requires |rows| <= 1 && WellFormed(rows)
    ensures NormalForm(rows) && Rows(Encode(rows) + [EMPTY]) == rows && IsRegion(Encode(rows) + [EMPTY])
  {
    EncodeIsRegion(rows);
  }

  /** `ygeog_union2`, `ygeog_intersect2`, `ygeog_diff2`: the second operand is a rectangle. */
  method RgnOpRect(g: array<Band>, r: Rect, op: Op) returns (res: array<Band>)
    requires IsRegion(g[..]) && (RectEmpty(r) || (InRange(r.yb) && InRange(r.xb)))
    ensures fresh(res) && IsRegion(res[..]) && NormalForm(Rows(res[..]))
    ensures forall x, y :: Covers(res[..], x, y) <==> Apply(op, Covers(g[..], x, y), RectHas(r, x, y))
  {
    hide NormalForm, Rows, RowIn;
    var tmp := MutateRectToRgnbands(r);
    hide RectHas, IsRegion;
    res := RgnOp(g, tmp, op);
  }

  function RowRects(y: Band, xs: seq<Band>): seq<Rect> {
    if xs == [] then [] else RowRects(y, xs[..|xs| - 1]) + [Rect(y, xs[|xs| - 1])]
  }

  function RectsOf(rows: seq<Row>): seq<Rect> {
    if rows == [] then [] else RectsOf(rows[..|rows| - 1]) + RowRects(rows[|rows| - 1].y, rows[|rows| - 1].xs)
  }

  lemma {:induction false} RowRectsAre(y: Band, xs: seq<Band>)
    ensures |RowRects(y, xs)| == |xs|
    ensures forall i :: 0 <= i < |xs| ==> RowRects(y, xs)[i] == Rect(y, xs[i])
  {
    if xs != [] {
      RowRectsAre(y, xs[..|xs| - 1]);
    }
  }

  ghost predicate RectsCover(rs: seq<Rect>, x: int, y: int) {
    exists i :: 0 <= i < |rs| && RectHas(rs[i], x, y)
  }

  ghost predicate Disjoint(rs: seq<Rect>) {
    forall i, j, x, y :: 0 <= i < j < |rs| ==> !(RectHas(rs[i], x, y) && RectHas(rs[j], x, y))
  }

  /** The rectangles of a region cover its points, and no two of them overlap. */
  lemma {:induction false} RectsExact(rows: seq<Row>)
    requires WellFormed(rows)
    ensures Disjoint(RectsOf(rows))
    ensures forall x, y :: RectsCover(RectsOf(rows), x, y) <==> RowIn(rows, x, y)
  {
    if rows != [] {
      var n := |rows| - 1;
      var init, y, xs := rows[..n], rows[n].y, rows[n].xs;
      RectsExact(init);
      RowRectsAre(y, xs);
      assert RowOk(y, xs);
      var rs, ls := RectsOf(init), RowRects(y, xs);
      forall u, v ensures RectsCover(rs + ls, u, v) <==> (RectsCover(rs, u, v) || (Has(y, v) && XIn(xs, u))) {
        RectsJoin(rs, ls, u, v);
        if Has(y, v) && XIn(xs, u) {
          var i :| 0 <= i < |xs| && Has(xs[i], u);
          assert RectHas(ls[i], u, v);
        }
      }
      forall u, v ensures RowIn(rows, u, v) <==> (RowIn(init, u, v) || (Has(y, v) && XIn(xs, u))) {
        RowInSnoc(rows, u, v);
      }
      forall i, j, u, v | 0 <= i < j < |rs + ls|
        ensures !(RectHas((rs + ls)[i], u, v) && RectHas((rs + ls)[j], u, v))
      {
        if i < |rs| <= j && RectHas(rs[i], u, v) {
          assert RectsCover(rs, u, v);
          assert RowIn(init, u, v);
        }
      }
    }
  }

  lemma RectsJoin(rs: seq<Rect>, ls: seq<Rect>, x: int, y: int)
    ensures RectsCover(rs + ls, x, y) <==> RectsCover(rs, x, y) || RectsCover(ls, x, y)
  {
    if RectsCover(rs, x, y) {
      var i :| 0 <= i < |rs| && RectHas(rs[i], x, y);
      assert RectHas((rs + ls)[i], x, y);
    }
    if RectsCover(ls, x, y) {
      var i :| 0 <= i < |ls| && RectHas(ls[i], x, y);
      assert RectHas((rs + ls)[|rs| + i], x, y);
    }
  }

  lemma RowInSnoc(rows: seq<Row>, x: int, y: int)
    requires rows != []
    ensures var n := |rows| - 1;
      RowIn(rows, x, y) <==> (RowIn(rows[..n], x, y) || (Has(rows[n].y, y) && XIn(rows[n].xs, x)))
  {
    hide XIn;
    var n := |rows| - 1;
    if RowIn(rows[..n], x, y) {
      var i :| 0 <= i < n && Has(rows[..n][i].y, y) && XIn(rows[..n][i].xs, x);
      assert Has(rows[i].y, y) && XIn(rows[i].xs, x);
    }
    if RowIn(rows, x, y) {
      var i :| 0 <= i < |rows| && Has(rows[i].y, y) && XIn(rows[i].xs, x);
      assert i < n ==> rows[..n][i] == rows[i];
    }
  }

  /** The inner loop: the rectangles of one row, up to and past its sentinel. */
  method RowForeach(g: array<Band>, from: nat, y: Band, ghost xs: seq<Band>, before: seq<Rect>)
    returns (b: nat, rs: seq<Rect>)
    requires XAt(g[..], from, xs)
    ensures b == from + |xs| + 1 && rs == before + RowRects(y, xs)
  {
    b, rs := from, before;
    ghost var i, f := 0, g[..];
    BandAt(f, from, xs, 0);
    hide XAt;
    while !IsEmpty(g[b])
      invariant i <= |xs| && b == from + i < g.Length
      invariant i == |xs| <==> IsEmpty(f[b])
      invariant rs == before + RowRects(y, xs[..i])
      decreases |xs| - i
    {
      BandAt(f, from, xs, i);
      BandAt(f, from, xs, i + 1);
      rs := rs + [Rect(y, g[b])];
      assert xs[..i + 1][..i] == xs[..i];
      b, i := b + 1, i + 1;
    }
    assert xs[..i] == xs;
    b := b + 1;
  }

  /** At the start of row `k`, or at the end sentinel behind the last row. */
  lemma AtRow(f: seq<Band>, rows: seq<Row>, k: nat)
    requires f == Encode(rows) + [EMPTY] && WellFormed(rows) && k <= |rows|
    ensures var b := |Encode(rows[..k])|;
      && b < |f| && (IsEmpty(f[b]) <==> k == |rows|)
      && (k < |rows| ==>
          f[b] == rows[k].y && XAt(f, b + 1, rows[k].xs) && |Encode(rows[..k + 1])| == b + |rows[k].xs| + 2)
  {
    hide Encode, XNormal, XInRange;
    RowOffset(rows, k);
    LegalFrom(rows, k);
  }

  lemma RectsOneMore(rows: seq<Row>, k: nat)
    requires k < |rows|
    ensures RectsOf(rows[..k + 1]) == RectsOf(rows[..k]) + RowRects(rows[k].y, rows[k].xs)
  {
    assert rows[..k + 1][..k] == rows[..k];
  }

  /** `ygeog_foreach_rect`: walks the flat array rectangle by rectangle. */
  method ForeachRect(g: array<Band>) returns (rs: seq<Rect>)
    requires IsRegion(g[..])
    ensures Disjoint(rs)
    ensures forall x, y :: RectsCover(rs, x, y) <==> Covers(g[..], x, y)
  {
    hide Rows, Encode, NormalForm, RowIn, Disjoint, RectsCover, XNormal, XInRange, WellFormed, XAt, RectsOf, RowRects;
    ghost var f, rows := g[..], Rows(g[..]);
    rs := [];
    var b: nat := 0;
    ghost var k := 0;
    assert rows[..0] == [];
    NoRows();
    AtRow(f, rows, 0);
    while !IsEmpty(g[b])
      invariant k <= |rows| && b == |Encode(rows[..k])| < g.Length
      invariant rs == RectsOf(rows[..k])
      decreases |rows| - k
    {
      AtRow(f, rows, k);
      assert f[b] == g[b];
      var y := g[b];
      b := b + 1;
      b, rs := RowForeach(g, b, y, rows[k].xs, rs);
      RectsOneMore(rows, k);
      k := k + 1;
      AtRow(f, rows, k);
    }
    AtRow(f, rows, k);
    assert f[b] == g[b];
    assert rows[..k] == rows;
    RectsExact(rows);
  }

  lemma NoRows()
    ensures |Encode([])| == 0 && RectsOf([]) == []
  {
  }

  lemma LegalFrom(rows: seq<Row>, k: nat)
    requires WellFormed(rows)
    ensures k < |rows| ==> !IsEmpty(rows[k].y)
  {
  }
}
