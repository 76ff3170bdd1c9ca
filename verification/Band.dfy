/** Half-open integer bands, and the three-way split of two bands that both region sweeps rest on. */
module Band {

  // The C code stores `int`s.  It only compares and copies them, so no operation can wrap.
  const INT_MIN := -0x8000_0000
  const INT_MAX := 0x7fff_ffff

  /** The half-open interval from `s` (included) to `b` (excluded). */
  datatype Band = Band(s: int, b: int)

  /** What marks the end of a band list. */
  const EMPTY := Band(0, 0)

  /** Stands for an operand that has run out: it lies above every legal band. */
  const MAX_INVALID := Band(INT_MAX - 1, INT_MAX)

  /** Stands for "nothing written yet": it ends below every legal band. */
  const MIN_INVALID := Band(INT_MIN, INT_MIN + 1)

  predicate IsEmpty(b: Band) {
    b.s >= b.b
  }

  predicate Has(b: Band, v: int) {
    b.s <= v < b.b
  }

  /** Coordinates next to the ends of the `int` range are reserved. */
  predicate InRange(b: Band) {
    INT_MIN + 1 < b.s && b.b < INT_MAX
  }

  function Min(a: int, b: int): int {
    if a <= b then a else b
  }

  /** What is left of `b` from `low` upwards. */
  function Trim(b: Band, low: int): Band {
    Band(if b.s < low then low else b.s, b.b)
  }

  datatype Layout = Separate | Overlap | Subset

  function LayoutOf(bs: Band, bb: Band): Layout {
    if bs.b <= bb.s then Separate else if bb.b <= bs.b then Subset else Overlap
  }

  /** The part of `bs` below `bb`. */
  function LowerPart(bs: Band, bb: Band): Band {
    Band(bs.s, Min(bs.b, bb.s))
  }

  function CommonPart(bs: Band, bb: Band): Band {
    if bs.b <= bb.s then EMPTY else Band(bb.s, Min(bs.b, bb.b))
  }

  /** What reaches above the nearer of the two ends. */
  function UpperPart(bs: Band, bb: Band): Band {
    Trim(if LayoutOf(bs, bb) == Subset then bs else bb, Min(bs.b, bb.b))
  }

  /** The three parts split the two bands without loss, and the layout says how they meet. */
  lemma PartsSplit(bs: Band, bb: Band)
    requires bs.s <= bb.s && !IsEmpty(bs) && !IsEmpty(bb)
    ensures forall v :: Has(LowerPart(bs, bb), v) <==> Has(bs, v) && v < bb.s
    ensures forall v :: Has(CommonPart(bs, bb), v) <==> Has(bs, v) && Has(bb, v)
    ensures forall v :: Has(UpperPart(bs, bb), v) <==> v >= Min(bs.b, bb.b) && (Has(bs, v) || Has(bb, v))
    ensures LayoutOf(bs, bb) == Separate <==> forall v :: !(Has(bs, v) && Has(bb, v))
    ensures LayoutOf(bs, bb) == Subset <==> forall v :: Has(bb, v) ==> Has(bs, v)
  {
    assert Has(bb, bb.s);
    assert Has(bs, bb.s) <==> bb.s < bs.b;
    if bs.b < bb.b {
      var v := if bb.s <= bs.b then bs.b else bb.s;
      assert Has(bb, v) && !Has(bs, v);
    }
  }

  method AnalyzeLayout(bs: Band, bb: Band) returns (pos: Layout, obs: Band, obo: Band, obb: Band)
    requires bs.s <= bb.s && !IsEmpty(bs) && !IsEmpty(bb)
    ensures pos == LayoutOf(bs, bb)
    ensures obs == LowerPart(bs, bb) && obo == CommonPart(bs, bb) && obb == UpperPart(bs, bb)
  {
    if bs.b <= bb.s {
      obs := bs;
      obo := EMPTY;
      obb := bb;
      pos := Separate;
    } else if bs.b >= bb.b {
      obs := Band(bs.s, bb.s);
      obo := bb;
      obb := Band(bb.b, bs.b);
      pos := Subset;
    } else {
      obs := Band(bs.s, bb.s);
      obo := Band(bb.s, bs.b);
      obb := Band(bs.b, bb.b);
      pos := Overlap;
    }
  }

  /** What is left over belongs to the band that reaches farther. */
  lemma BottomIs(b0: Band, b1: Band, bs: Band, bb: Band, bsb0: bool, botb0: bool)
    requires !IsEmpty(b0) && !IsEmpty(b1) && (if bsb0 then bs == b0 && bb == b1 else bs == b1 && bb == b0)
    requires bs.s <= bb.s
    requires botb0 == if bsb0 then LayoutOf(bs, bb) == Subset else LayoutOf(bs, bb) != Subset
    ensures UpperPart(bs, bb) == Trim(if botb0 then b0 else b1, Min(b0.b, b1.b))
    ensures IsEmpty(UpperPart(bs, bb)) <==> b0.b == b1.b
    ensures !IsEmpty(UpperPart(bs, bb)) ==> (botb0 <==> b1.b < b0.b)
  {
  }
}
