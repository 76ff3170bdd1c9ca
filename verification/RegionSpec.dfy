/** What a flat band array means: rows of rectangles, the points they cover, and the normal form. */
module RegionSpec {
  import opened Band

  /** One y-band and the x-bands that share it. */
  datatype Row = Row(y: Band, xs: seq<Band>)

  datatype Op = Intersect | Diff | Union

  predicate Apply(op: Op, p: bool, q: bool) {
    match op
    case Intersect => p && q
    case Diff => p && !q
    case Union => p || q
  }

  // ----- one row's x-bands

  ghost predicate XIn(xs: seq<Band>, v: int) {
    exists i :: 0 <= i < |xs| && Has(xs[i], v)
  }

  ghost predicate AllNonEmpty(xs: seq<Band>) {
    forall i :: 0 <= i < |xs| ==> !IsEmpty(xs[i])
  }

  /** Non-empty bands, sorted, with a gap between any two. */
  ghost predicate XNormal(xs: seq<Band>) {
    && AllNonEmpty(xs)
    && forall i, j :: 0 <= i < j < |xs| ==> xs[i].b < xs[j].s
  }

  ghost predicate XInRange(xs: seq<Band>) {
    forall i :: 0 <= i < |xs| ==> InRange(xs[i])
  }

  ghost predicate XEndsBy(xs: seq<Band>, limit: int) {
    forall i :: 0 <= i < |xs| ==> xs[i].b <= limit
  }

  /** Equal points, equal bands. */
  lemma {:induction false} XUnique(a: seq<Band>, b: seq<Band>)
    requires XNormal(a) && XNormal(b)
    requires forall v :: XIn(a, v) <==> XIn(b, v)
    ensures a == b
  {
    if a == [] {
      if b != [] {
        assert Has(b[0], b[0].s);
        assert XIn(b, b[0].s);
      }
    } else if b == [] {
      assert Has(a[0], a[0].s);
      assert XIn(a, a[0].s);
    } else {
      XFirstStart(a, b);
      XFirstStart(b, a);
      XFirstEnd(a, b);
      XFirstEnd(b, a);
      XTailPoints(a);
      XTailPoints(b);
      XUnique(a[1..], b[1..]);
      assert a == [a[0]] + a[1..] && b == [b[0]] + b[1..];
    }
  }

  lemma XFirstStart(a: seq<Band>, b: seq<Band>)
    requires XNormal(a) && XNormal(b) && a != [] && b != []
    requires forall v :: XIn(a, v) <==> XIn(b, v)
    ensures b[0].s <= a[0].s
  {
    assert Has(a[0], a[0].s);
    assert XIn(a, a[0].s);
    var j :| 0 <= j < |b| && Has(b[j], a[0].s);
  }

  lemma XFirstEnd(a: seq<Band>, b: seq<Band>)
    requires XNormal(a) && XNormal(b) && a != [] && b != [] && a[0].s == b[0].s
    requires forall v :: XIn(a, v) <==> XIn(b, v)
    ensures b[0].b <= a[0].b
  {
    if a[0].b < b[0].b {
      assert Has(b[0], a[0].b);
      assert XIn(b, a[0].b);
      assert false;
    }
  }

  lemma XTailPoints(a: seq<Band>)
    requires XNormal(a) && a != []
    ensures XNormal(a[1..])
    ensures forall v :: XIn(a[1..], v) <==> XIn(a, v) && v > a[0].b
  {
    forall v ensures XIn(a[1..], v) <==> XIn(a, v) && v > a[0].b {
      if XIn(a[1..], v) {
        var i :| 0 <= i < |a[1..]| && Has(a[1..][i], v);
        assert Has(a[i + 1], v);
      }
      if XIn(a, v) && v > a[0].b {
        var i :| 0 <= i < |a| && Has(a[i], v);
        assert Has(a[1..][i - 1], v);
      }
    }
  }

  // ----- rows

  ghost predicate RowOk(y: Band, xs: seq<Band>) {
    && !IsEmpty(y) && InRange(y)
    && xs != [] && XNormal(xs) && XInRange(xs)
  }

  /** What the operations accept: legal rows, sorted by y and disjoint. */
  ghost predicate WellFormed(rows: seq<Row>) {
    && (forall i :: 0 <= i < |rows| ==> RowOk(rows[i].y, rows[i].xs))
    && (forall i, j :: 0 <= i < j < |rows| ==> rows[i].y.b <= rows[j].y.s)
  }

  /** What the operations produce: moreover, rows that touch differ in their x-bands. */
  ghost predicate NormalForm(rows: seq<Row>) {
    && WellFormed(rows)
    && forall i :: 0 < i < |rows| && rows[i - 1].y.b == rows[i].y.s ==> rows[i - 1].xs != rows[i].xs
  }

  ghost predicate RowIn(rows: seq<Row>, x: int, y: int) {
    exists i :: 0 <= i < |rows| && Has(rows[i].y, y) && XIn(rows[i].xs, x)
  }

  ghost predicate RowsEndBy(rows: seq<Row>, limit: int) {
    forall i :: 0 <= i < |rows| ==> rows[i].y.b <= limit
  }

  ghost predicate SamePoints(a: seq<Row>, b: seq<Row>) {
    forall x, y :: RowIn(a, x, y) <==> RowIn(b, x, y)
  }

  /** Equal points, equal rows: the normal form is unique. */
  lemma {:induction false} RowsUnique(a: seq<Row>, b: seq<Row>)
    requires NormalForm(a) && NormalForm(b) && SamePoints(a, b)
    ensures a == b
  {
    if a == [] {
      if b != [] {
        var _ := RowHasPoint(b, 0, b[0].y.s);
      }
    } else if b == [] {
      var _ := RowHasPoint(a, 0, a[0].y.s);
    } else {
      FirstRowsEqual(a, b);
      TailsSamePoints(a, b);
      RowsUnique(a[1..], b[1..]);
      assert a == [a[0]] + a[1..] && b == [b[0]] + b[1..];
    }
  }

  lemma FirstRowsEqual(a: seq<Row>, b: seq<Row>)
    requires NormalForm(a) && NormalForm(b) && a != [] && b != [] && SamePoints(a, b)
    ensures a[0] == b[0]
  {
    RowsFirstStart(a, b);
    RowsFirstStart(b, a);
    SliceUnique(a, 0, b, 0, a[0].y.s);
    RowsFirstEnd(a, b);
    RowsFirstEnd(b, a);
  }

  lemma TailsSamePoints(a: seq<Row>, b: seq<Row>)
    requires NormalForm(a) && NormalForm(b) && a != [] && b != [] && SamePoints(a, b)
    requires a[0] == b[0]
    ensures NormalForm(a[1..]) && NormalForm(b[1..]) && SamePoints(a[1..], b[1..])
  {
    RowsTailPoints(a);
    RowsTailPoints(b);
  }

  lemma RowHasPoint(a: seq<Row>, i: nat, y: int) returns (x: int)
    requires i < |a| && RowOk(a[i].y, a[i].xs) && Has(a[i].y, y)
    ensures XIn(a[i].xs, x) && RowIn(a, x, y)
  {
    x := a[i].xs[0].s;
    assert Has(a[i].xs[0], x);
  }

  /** The cut through a region at height `y` is the row there, and nothing else. */
  lemma SliceAt(a: seq<Row>, i: nat, y: int)
    requires WellFormed(a) && i < |a| && Has(a[i].y, y)
    ensures forall x :: RowIn(a, x, y) <==> XIn(a[i].xs, x)
  {
  }

  lemma SliceUnique(a: seq<Row>, i: nat, b: seq<Row>, j: nat, y: int)
    requires WellFormed(a) && WellFormed(b) && SamePoints(a, b)
    requires i < |a| && j < |b| && Has(a[i].y, y) && Has(b[j].y, y)
    ensures a[i].xs == b[j].xs
  {
    SliceAt(a, i, y);
    SliceAt(b, j, y);
    assert forall x :: RowIn(a, x, y) <==> RowIn(b, x, y);
    XUnique(a[i].xs, b[j].xs);
  }

  lemma RowsFirstStart(a: seq<Row>, b: seq<Row>)
    requires NormalForm(a) && NormalForm(b) && a != [] && b != [] && SamePoints(a, b)
    ensures b[0].y.s <= a[0].y.s
  {
    var x := RowHasPoint(a, 0, a[0].y.s);
    assert RowIn(b, x, a[0].y.s);
  }

  lemma RowsFirstEnd(a: seq<Row>, b: seq<Row>)
    requires NormalForm(a) && NormalForm(b) && a != [] && b != [] && SamePoints(a, b)
    requires a[0].y.s == b[0].y.s && a[0].xs == b[0].xs
    ensures b[0].y.b <= a[0].y.b
  {
    var y := a[0].y.b;
    assert |a| > 1 ==> RowOk(a[1].y, a[1].xs);
    if y < b[0].y.b {
      var x := RowHasPoint(b, 0, y);
      assert RowIn(a, x, y);
      var j :| 0 <= j < |a| && Has(a[j].y, y) && XIn(a[j].xs, x);
      SliceUnique(a, j, b, 0, y);
      assert false;
    }
  }

  lemma RowsTailPoints(a: seq<Row>)
    requires NormalForm(a) && a != []
    ensures NormalForm(a[1..])
    ensures forall x, y :: RowIn(a[1..], x, y) <==> RowIn(a, x, y) && y >= a[0].y.b
  {
    var t := a[1..];
    assert forall i :: 0 <= i < |t| ==> t[i] == a[i + 1];
    forall x, y ensures RowIn(t, x, y) <==> RowIn(a, x, y) && y >= a[0].y.b {
      if RowIn(t, x, y) {
        var i :| 0 <= i < |t| && Has(t[i].y, y) && XIn(t[i].xs, x);
        assert Has(a[i + 1].y, y) && XIn(a[i + 1].xs, x);
      }
      if RowIn(a, x, y) && y >= a[0].y.b {
        var i :| 0 <= i < |a| && Has(a[i].y, y) && XIn(a[i].xs, x);
        assert Has(t[i - 1].y, y) && XIn(t[i - 1].xs, x);
      }
    }
  }

  // ----- the flat array

  function EncodeRow(r: Row): seq<Band> {
    [r.y] + r.xs + [EMPTY]
  }

  /** Each row is its y-band, its x-bands and an empty band. */
  function Encode(rows: seq<Row>): seq<Band> {
    if rows == [] then [] else Encode(rows[..|rows| - 1]) + EncodeRow(rows[|rows| - 1])
  }

  /** How many bands stand before the first empty one. */
  function RunLength(f: seq<Band>): (n: nat)
    ensures n <= |f|
    ensures AllNonEmpty(f[..n])
    ensures n < |f| ==> IsEmpty(f[n])
  {
    if f == [] || IsEmpty(f[0]) then 0 else 1 + RunLength(f[1..])
  }

  /** Reads a flat array up to the region's sentinel. */
  function Rows(f: seq<Band>): seq<Row> {
    if f == [] || IsEmpty(f[0]) then
      []
    else
      var n := RunLength(f[1..]);
      if n + 1 >= |f| then [] else [Row(f[0], f[1..n + 1])] + Rows(f[n + 2..])
  }

  /** A well-formed region: its rows and one more empty band. */
  ghost predicate IsRegion(f: seq<Band>) {
    WellFormed(Rows(f)) && f == Encode(Rows(f)) + [EMPTY]
  }

  ghost predicate Covers(f: seq<Band>, x: int, y: int) {
    RowIn(Rows(f), x, y)
  }

  lemma {:induction false} EncodeConcat(a: seq<Row>, b: seq<Row>)
    ensures Encode(a + b) == Encode(a) + Encode(b)
  {
    hide EncodeRow;
    if b == [] {
      assert a + b == a;
    } else {
      var c, last := b[..|b| - 1], EncodeRow(b[|b| - 1]);
      assert (a + b)[..|a + b| - 1] == a + c && (a + b)[|a + b| - 1] == b[|b| - 1];
      EncodeConcat(a, c);
      assert Encode(a) + Encode(c) + last == Encode(a) + (Encode(c) + last);
    }
  }

  lemma EncodeFirst(rows: seq<Row>)
    requires rows != []
    ensures Encode(rows) == EncodeRow(rows[0]) + Encode(rows[1..])
  {
    assert rows == [rows[0]] + rows[1..];
    EncodeConcat([rows[0]], rows[1..]);
    assert [rows[0]][..0] == [];
    assert Encode([rows[0]]) == EncodeRow(rows[0]);
  }

  lemma {:induction false} RunLengthIs(xs: seq<Band>, rest: seq<Band>)
    requires AllNonEmpty(xs) && rest != [] && IsEmpty(rest[0])
    ensures RunLength(xs + rest) == |xs|
  {
    if xs == [] {
      assert xs + rest == rest;
    } else {
      assert (xs + rest)[1..] == xs[1..] + rest;
      RunLengthIs(xs[1..], rest);
    }
  }

  lemma NormalNonEmpty(xs: seq<Band>)
    requires XNormal(xs)
    ensures AllNonEmpty(xs)
  {
  }

  /** Where the parts of an encoded row are, with something behind it. */
  lemma EncodedParts(r: Row, f: seq<Band>)
    ensures var g, n := EncodeRow(r) + f, |r.xs|;
      && n + 2 <= |g| && g[0] == r.y && g[1..] == r.xs + ([EMPTY] + f)
      && g[1..n + 1] == r.xs && g[n + 2..] == f
  {
    var g := EncodeRow(r) + f;
    assert g == [r.y] + (r.xs + ([EMPTY] + f));
  }

  lemma {:induction false} RowsStep(g: seq<Band>, n: nat)
    requires g != [] && !IsEmpty(g[0]) && n == RunLength(g[1..]) && n + 1 < |g|
    ensures Rows(g) == [Row(g[0], g[1..n + 1])] + Rows(g[n + 2..])
  {
  }

  lemma RowsCons(r: Row, f: seq<Band>)
    requires RowOk(r.y, r.xs) && f != []
    ensures Rows(EncodeRow(r) + f) == [r] + Rows(f)
  {
    hide XNormal, XInRange, AllNonEmpty, RunLength, EncodeRow, Rows;
    NormalNonEmpty(r.xs);
    EncodedParts(r, f);
    RunLengthIs(r.xs, [EMPTY] + f);
    RowsStep(EncodeRow(r) + f, |r.xs|);
  }

  /** Reading back what was written gives the same rows. */
  lemma {:induction false} RowsOfEncode(rows: seq<Row>)
    requires WellFormed(rows)
    ensures Rows(Encode(rows) + [EMPTY]) == rows
  {
    if rows != [] {
      hide Rows, Encode, EncodeRow, XNormal, XInRange;
      var t := rows[1..];
      TailWellFormed(rows);
      hide WellFormed, RowOk;
      RowsOfEncode(t);
      EncodeFirst(rows);
      assert Encode(rows) + [EMPTY] == EncodeRow(rows[0]) + (Encode(t) + [EMPTY]);
      RowsCons(rows[0], Encode(t) + [EMPTY]);
      assert rows == [rows[0]] + t;
    }
  }

  lemma EncodeIsRegion(rows: seq<Row>)
    requires WellFormed(rows)
    ensures Rows(Encode(rows) + [EMPTY]) == rows && IsRegion(Encode(rows) + [EMPTY])
  {
    RowsOfEncode(rows);
  }

  lemma TailWellFormed(rows: seq<Row>)
    requires WellFormed(rows) && rows != []
    ensures RowOk(rows[0].y, rows[0].xs) && WellFormed(rows[1..])
  {
    assert forall i :: 0 <= i < |rows[1..]| ==> rows[1..][i] == rows[i + 1];
  }
}
