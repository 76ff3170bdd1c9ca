/** One y-step: at most two rectangle rows, written at the end of the output or grown into its last row. */
module RegionY {
  import opened Band
  import opened RegionSpec
  import opened RegionX
  import opened RegionSweepX

  /** Appends a row, growing the last one instead when they touch and share their x-bands. */
  function RowAppend(rows: seq<Row>, y: Band, xs: seq<Band>): seq<Row> {
    if IsEmpty(y) then
      rows
    else if rows != [] && rows[|rows| - 1].y.b == y.s && rows[|rows| - 1].xs == xs then
      rows[..|rows| - 1] + [Row(Band(rows[|rows| - 1].y.s, y.b), xs)]
    else
      rows + [Row(y, xs)]
  }

  lemma MergedNormal(rows: seq<Row>, y: Band)
    requires rows != [] && NormalForm(rows) && rows[|rows| - 1].y.b == y.s && !IsEmpty(y) && InRange(y)
    ensures var n := |rows| - 1; var r := rows[..n] + [Row(Band(rows[n].y.s, y.b), rows[n].xs)];
      NormalForm(r) && RowsEndBy(r, y.b)
  {
    hide XNormal, XInRange;
    var n := |rows| - 1;
    var r := rows[..n] + [Row(Band(rows[n].y.s, y.b), rows[n].xs)];
    assert RowOk(rows[n].y, rows[n].xs);
    assert forall i :: 0 <= i < n ==> r[i] == rows[i];
  }

  lemma AppendedNormal(rows: seq<Row>, y: Band, xs: seq<Band>)
    requires NormalForm(rows) && RowsEndBy(rows, y.s) && RowOk(y, xs)
    requires rows != [] ==> rows[|rows| - 1].y.b != y.s || rows[|rows| - 1].xs != xs
    ensures NormalForm(rows + [Row(y, xs)]) && RowsEndBy(rows + [Row(y, xs)], y.b)
  {
    hide XNormal, XInRange;
    var r := rows + [Row(y, xs)];
    assert forall i :: 0 <= i < |rows| ==> r[i] == rows[i];
  }

  lemma RowAppendNormal(rows: seq<Row>, y: Band, xs: seq<Band>)
    requires NormalForm(rows) && RowsEndBy(rows, y.s) && RowOk(y, xs)
    ensures NormalForm(RowAppend(rows, y, xs)) && RowsEndBy(RowAppend(rows, y, xs), y.b)
  {
    hide XNormal, XInRange, NormalForm, RowsEndBy;
    if rows != [] && rows[|rows| - 1].y.b == y.s && rows[|rows| - 1].xs == xs {
      MergedNormal(rows, y);
    } else {
      AppendedNormal(rows, y, xs);
    }
  }

  lemma RowAppendPoints(rows: seq<Row>, y: Band, xs: seq<Band>)
    requires NormalForm(rows) && RowsEndBy(rows, y.s) && RowOk(y, xs)
    ensures forall u, v :: RowIn(RowAppend(rows, y, xs), u, v) <==> RowIn(rows, u, v) || (Has(y, v) && XIn(xs, u))
  {
    hide XNormal, XInRange, XIn;
    var r := RowAppend(rows, y, xs);
    var n := |r| - 1;
    assert forall i :: 0 <= i < n ==> r[i] == rows[i];
    assert n < |rows| ==> RowOk(rows[n].y, rows[n].xs);
    forall u, v ensures RowIn(r, u, v) <==> RowIn(rows, u, v) || (Has(y, v) && XIn(xs, u)) {
      if Has(y, v) && XIn(xs, u) {
        assert Has(r[n].y, v) && XIn(r[n].xs, u);
      }
      if RowIn(rows, u, v) {
        var i :| 0 <= i < |rows| && Has(rows[i].y, v) && XIn(rows[i].xs, u);
        assert Has(r[i].y, v) && XIn(r[i].xs, u);
      }
    }
  }

  // ----- rows in the flat array

  /** In `f` at offset `at` stands the row `r` with its sentinel. */
  ghost predicate RowAt(f: seq<Band>, at: nat, r: Row) {
    at < |f| && f[at] == r.y && XAt(f, at + 1, r.xs)
  }

  /** Offset of the last row written, or -1 for the invalid minimum row. */
  function PrevRow(rows: seq<Row>): int {
    if rows == [] then -1 else |Encode(rows[..|rows| - 1])|
  }

  lemma LastRowAt(rows: seq<Row>)
    requires rows != [] && AllNonEmpty(rows[|rows| - 1].xs)
    ensures 0 <= PrevRow(rows) && PrevRow(rows) + |rows[|rows| - 1].xs| + 2 == |Encode(rows)|
    ensures RowAt(Encode(rows), PrevRow(rows), rows[|rows| - 1])
  {
  }

  lemma EncodeGrown(rows: seq<Row>, y: Band)
    requires rows != [] && !IsEmpty(y) && rows[|rows| - 1].y.b == y.s
    ensures var at := PrevRow(rows); var last := rows[|rows| - 1];
            && 0 <= at < |Encode(rows)|
            && Encode(RowAppend(rows, y, last.xs)) == Encode(rows)[at := Band(last.y.s, y.b)]
            && PrevRow(RowAppend(rows, y, last.xs)) == at
  {
    var n := |rows| - 1;
    var r := RowAppend(rows, y, rows[n].xs);
    assert r[..n] == rows[..n];
  }

  lemma EncodeAdded(rows: seq<Row>, r: Row)
    ensures Encode(rows + [r]) == Encode(rows) + EncodeRow(r)
    ensures PrevRow(rows + [r]) == |Encode(rows)|
  {
    assert (rows + [r])[..|rows|] == rows;
  }

  /** Says whether the last row can grow to take in a row with band `yb` and the x-bands at `xbs`. */
  method RbandCanMerge(buf: array<Band>, prevrb: int, yb: Band, arr: array<Band>, xbs: nat,
                       ghost last: Row, ghost xs: seq<Band>)
    returns (merge: bool)
    requires prevrb == -1 || (0 <= prevrb && RowAt(buf[..], prevrb, last))
    requires XAt(arr[..], xbs, xs) && INT_MIN + 1 < yb.s
    ensures merge <==> prevrb >= 0 && last.y.b == yb.s && last.xs == xs
  {
    var prevyb := if prevrb < 0 then MIN_INVALID else buf[prevrb];
    if prevyb.b < yb.s || prevyb.b > yb.s {
      return false;
    }
    var b0, b1 := prevrb + 1, xbs;
    ghost var i := 0;
    ghost var f, g := buf[..], arr[..];
    assert f[b0..b0 + |last.xs|] == last.xs && g[xbs..xbs + |xs|] == xs;
    while !IsEmpty(buf[b0]) && !IsEmpty(arr[b1])
      invariant 0 <= i <= |last.xs| && i <= |xs|
      invariant b0 == prevrb + 1 + i && b1 == xbs + i
      invariant last.xs[..i] == xs[..i]
      decreases |xs| - i
    {
      assert f[b0] == buf[b0] && g[b1] == arr[b1];
      assert i < |last.xs| && i < |xs|;
      assert last.xs[i] == buf[b0] && xs[i] == arr[b1];
      if buf[b0] != arr[b1] {
        return false;
      }
      b0, b1 := b0 + 1, b1 + 1;
      i := i + 1;
    }
    assert f[b0] == buf[b0] && g[b1] == arr[b1];
    assert i < |last.xs| ==> last.xs[i] == buf[b0];
    assert i < |xs| ==> xs[i] == arr[b1];
    if !IsEmpty(buf[b0]) || !IsEmpty(arr[b1]) {
      assert |last.xs| != |xs|;
      return false;
    }
    return true;
  }

  /** What the row methods keep about the output: it is exactly the encoding of `rows`. */
  ghost predicate Holds(f: seq<Band>, rows: seq<Row>, prevrb: int) {
    f == Encode(rows) && prevrb == PrevRow(rows) && NormalForm(rows)
  }

  lemma LastRow(rows: seq<Row>)
    requires rows != [] && NormalForm(rows)
    ensures RowOk(rows[|rows| - 1].y, rows[|rows| - 1].xs) && AllNonEmpty(rows[|rows| - 1].xs)
  {
  }

  lemma RowAtPrefix(f: seq<Band>, g: seq<Band>, at: nat, r: Row)
    requires RowAt(f, at, r) && |f| <= |g| && g[..|f|] == f
    ensures RowAt(g, at, r)
  {
    var n := |r.xs|;
    assert forall k :: 0 <= k < |f| ==> g[k] == g[..|f|][k] == f[k];
    assert g[at + 1..at + 1 + n] == f[at + 1..at + 1 + n];
    assert g[at] == f[at] && g[at + 1 + n] == f[at + 1 + n];
  }

  lemma LastRowIn(f: seq<Band>, g: seq<Band>, rows: seq<Row>, prevrb: int)
    requires Holds(f, rows, prevrb) && |f| <= |g| && g[..|f|] == f
    ensures if rows == [] then prevrb == -1 else 0 <= prevrb && RowAt(g, prevrb, rows[|rows| - 1])
  {
    if rows != [] {
      LastRow(rows);
      LastRowAt(rows);
      RowAtPrefix(f, g, prevrb, rows[|rows| - 1]);
    }
  }

  /** Moves the lower edge of the last row down. */
  method GrowPrev(buf: array<Band>, ghost rows: seq<Row>, prevrb: int, outb: nat, yb: Band, ghost xs: seq<Band>)
    requires outb <= buf.Length && Holds(buf[..outb], rows, prevrb)
    requires RowsEndBy(rows, yb.s) && RowOk(yb, xs)
    requires rows != [] && rows[|rows| - 1].y.b == yb.s && rows[|rows| - 1].xs == xs
    modifies buf
    ensures Holds(buf[..outb], RowAppend(rows, yb, xs), prevrb)
  {
    hide NormalForm, RowsEndBy, Encode, XNormal, XInRange;
    RowAppendNormal(rows, yb, xs);
    LastRow(rows);
    LastRowAt(rows);
    EncodeGrown(rows, yb);
    assert buf[..outb][prevrb] == buf[prevrb];
    buf[prevrb] := Band(buf[prevrb].s, yb.b);
    assert buf[..outb] == old(buf[..outb])[prevrb := buf[prevrb]];
  }

  lemma WrittenRow(f: seq<Band>, g: seq<Band>, rows: seq<Row>, yb: Band, xs: seq<Band>)
    requires f == Encode(rows) && g == f + [yb] + xs + [EMPTY]
    ensures g == Encode(rows + [Row(yb, xs)]) && PrevRow(rows + [Row(yb, xs)]) == |f|
    ensures AllNonEmpty(xs) ==> RowAt(g, |f|, Row(yb, xs))
  {
    EncodeAdded(rows, Row(yb, xs));
  }

  method CopyRow(buf: array<Band>, outb: nat, yb: Band, arr: array<Band>, xbs: nat, ghost xs: seq<Band>)
    returns (p: nat)
    requires arr != buf && XAt(arr[..], xbs, xs) && outb + |xs| + 2 <= buf.Length
    modifies buf
    ensures p == outb + |xs| + 2
    ensures buf[..p] == old(buf[..outb]) + [yb] + xs + [EMPTY]
  {
    buf[outb] := yb;
    p := outb + 1;
    var q := xbs;
    ghost var i, g := 0, arr[..];
    assert g[xbs..xbs + |xs|] == xs;
    while !IsEmpty(arr[q])
      invariant 0 <= i <= |xs| && q == xbs + i && p == outb + 1 + i
      invariant buf[..outb] == old(buf[..outb]) && buf[outb] == yb
      invariant buf[outb + 1..p] == xs[..i]
      invariant arr[..] == g
      decreases |xs| - i
    {
      assert g[q] == arr[q];
      assert i < |xs|;
      assert xs[i] == arr[q];
      buf[p] := arr[q];
      p, q, i := p + 1, q + 1, i + 1;
    }
    assert g[q] == arr[q];
    assert i < |xs| ==> xs[i] == arr[q];
    buf[p] := EMPTY;
    p := p + 1;
    assert buf[..p] == old(buf[..outb]) + [yb] + xs + [EMPTY];
  }

  method RbandAdd(buf: array<Band>, ghost rows: seq<Row>, prevrb: int, outb: nat, yb: Band,
                  arr: array<Band>, xbs: nat, ghost xs: seq<Band>)
    returns (n: nat)
    requires outb <= buf.Length && Holds(buf[..outb], rows, prevrb)
    requires IsEmpty(yb) || (
      && arr != buf && XAt(arr[..], xbs, xs) && RowOk(yb, xs)
      && RowsEndBy(rows, yb.s) && outb + |xs| + 2 <= buf.Length)
    modifies buf
    ensures outb + n <= buf.Length && (n == 0 || (!IsEmpty(yb) && n == |xs| + 2))
    ensures Holds(buf[..outb + n], RowAppend(rows, yb, xs), if n > 0 then outb else prevrb)
  {
    hide XNormal, XInRange, NormalForm, RowsEndBy, Encode, XAt, RowAt;
    if IsEmpty(yb) {
      return 0;
    }
    ghost var last := if rows == [] then Row(yb, xs) else rows[|rows| - 1];
    LastRowIn(buf[..outb], buf[..], rows, prevrb);
    RowAppendNormal(rows, yb, xs);
    var merge := RbandCanMerge(buf, prevrb, yb, arr, xbs, last, xs);
    if merge {
      GrowPrev(buf, rows, prevrb, outb, yb, xs);
      return 0;
    }
    var p := CopyRow(buf, outb, yb, arr, xbs, xs);
    WrittenRow(old(buf[..outb]), buf[..p], rows, yb, xs);
    n := p - outb;
  }

  /** The points of a row that `op` makes of rows `xs0` and `xs1` where both are present. */
  ghost predicate RowOf(xs: seq<Band>, op: Op, xs0: seq<Band>, xs1: seq<Band>) {
    && XNormal(xs) && XInRange(xs)
    && forall v :: XIn(xs, v) <==> Apply(op, XIn(xs0, v), XIn(xs1, v))
  }

  method RbandOpNoOverlap(buf: array<Band>, ghost rows: seq<Row>, prevrb: int, outb: nat, yb: Band,
                          arr: array<Band>, xbs: nat, ghost xs: seq<Band>, op: Op, lho: bool)
    returns (n: nat)
    requires outb <= buf.Length && Holds(buf[..outb], rows, prevrb)
    requires IsEmpty(yb) || (
      && arr != buf && XAt(arr[..], xbs, xs) && RowOk(yb, xs)
      && RowsEndBy(rows, yb.s) && outb + |xs| + 2 <= buf.Length)
    modifies buf
    ensures outb + n <= buf.Length && (n == 0 || (!IsEmpty(yb) && n == |xs| + 2))
    ensures Holds(buf[..outb + n], if KeepsAlone(op, lho) then RowAppend(rows, yb, xs) else rows,
                  if n > 0 then outb else prevrb)
  {
    n := 0;
    if op == Union || (op == Diff && lho) {
      n := RbandAdd(buf, rows, prevrb, outb, yb, arr, xbs, xs);
    }
  }

  /** Writes the row that `op` makes of two rows, without its sentinel when it has no x-bands. */
  method WriteRow(buf: array<Band>, outb: nat, yb: Band,
                  a0: array<Band>, x0: nat, ghost xs0: seq<Band>,
                  a1: array<Band>, x1: nat, ghost xs1: seq<Band>, op: Op)
    returns (cob: nat, ghost xs: seq<Band>)
    requires a0 != buf && a1 != buf && XAt(a0[..], x0, xs0) && XAt(a1[..], x1, xs1)
    requires XNormal(xs0) && XInRange(xs0) && XNormal(xs1) && XInRange(xs1)
    requires outb + |xs0| + |xs1| + 2 <= buf.Length
    modifies buf
    ensures RowOf(xs, op, xs0, xs1) && AllNonEmpty(xs) && |xs| <= |xs0| + |xs1|
    ensures cob == outb + 1 + (if xs == [] then 0 else |xs| + 1)
    ensures buf[..cob] == old(buf[..outb]) + [yb] + xs + (if xs == [] then [] else [EMPTY])
  {
    hide XIn, XNormal, XInRange;
    buf[outb] := yb;
    cob := SweepX(buf, outb + 1, a0, x0, xs0, a1, x1, xs1, op);
    xs := buf[outb + 1..cob];
    NormalNonEmpty(xs);
    assert buf[..outb + 1] == old(buf[..outb]) + [yb];
    assert buf[..cob] == buf[..outb + 1] + xs;
    if cob - outb > 1 {
      buf[cob] := EMPTY;
      cob := cob + 1;
    }
  }

  method RbandOpOverlap(buf: array<Band>, ghost rows: seq<Row>, prevrb: int, outb: nat, yb: Band,
                        a0: array<Band>, x0: nat, ghost xs0: seq<Band>,
                        a1: array<Band>, x1: nat, ghost xs1: seq<Band>, op: Op)
    returns (n: nat, ghost xs: seq<Band>)
    requires outb <= buf.Length && Holds(buf[..outb], rows, prevrb)
    requires IsEmpty(yb) || (
      && a0 != buf && a1 != buf && XAt(a0[..], x0, xs0) && XAt(a1[..], x1, xs1)
      && RowOk(yb, xs0) && RowOk(yb, xs1)
      && RowsEndBy(rows, yb.s) && outb + |xs0| + |xs1| + 2 <= buf.Length)
    modifies buf
    ensures outb + n <= buf.Length && (n == 0 || (!IsEmpty(yb) && n <= |xs0| + |xs1| + 2))
    ensures IsEmpty(yb) || RowOf(xs, op, xs0, xs1)
    ensures Holds(buf[..outb + n], if xs == [] then rows else RowAppend(rows, yb, xs), if n > 0 then outb else prevrb)
  {
    hide XIn, XNormal, XInRange, NormalForm, RowsEndBy, Encode, AllNonEmpty, RowAt;
    if IsEmpty(yb) {
      return 0, [];
    }
    ghost var was := buf[..outb];
    var cob;
    cob, xs := WriteRow(buf, outb, yb, a0, x0, xs0, a1, x1, xs1, op);
    if cob - outb == 1 {
      return 0, xs;
    }
    WrittenRow(was, buf[..cob], rows, yb, xs);
    RowAtPrefix(buf[..cob], buf[..], outb, Row(yb, xs));
    assert buf[..outb] == was;
    ghost var last := if rows == [] then Row(yb, xs) else rows[|rows| - 1];
    LastRowIn(buf[..outb], buf[..], rows, prevrb);
    RowAppendNormal(rows, yb, xs);
    var merge := RbandCanMerge(buf, prevrb, yb, buf, outb + 1, last, xs);
    if merge {
      GrowPrev(buf, rows, prevrb, outb, yb, xs);
      return 0, xs;
    }
    n := cob - outb;
  }
}
