/** The stateful tree iterators. */
module TreeIter {
  import opened Basics
  import opened TreeOrder
  import opened TreeSorted

  datatype Kind = PreOrder(l2r: bool) | LevelOrder | PostOrder(l2r: bool)

  /** The recursive order that an iterator has to yield. */
  function Order(kind: Kind, x: Link): seq<Path> {
    match kind
    case PreOrder(l2r) => Pre(x, l2r)
    case LevelOrder => Levels([x])
    case PostOrder(l2r) => Post(x, l2r)
  }

  /** What the stack of a pre-order iterator leads to, its top first. */
  function StackOrder(l: seq<Link>, l2r: bool): seq<Path> {
    if l == [] then [] else Pre(l[|l| - 1], l2r) + StackOrder(l[..|l| - 1], l2r)
  }

  class Iterator {
    const kind: Kind
    const top: Tree
    /** The current node, the next one, and the ones pending. */
    var lc: Option<Link>
    var ln: Option<Link>
    var l: seq<Link>
    /** Zero as long as there is a next one. */
    var nerr: int

    ghost predicate Valid()
      reads this
    {
      && (if nerr == 0 then ln.Some? else nerr == -ENOENT && ln == None)
      && (kind.PostOrder? && nerr == 0 ==> Exists(top, ln.value.p) && ln.value == LinkAt(top, ln.value.p))
    }

    /** What is still to come. */
    ghost function Rest(): seq<Path>
      requires Valid()
      reads this
    {
      if nerr != 0 then []
      else match kind
        case PreOrder(l2r) => Pre(ln.value, l2r) + StackOrder(l, l2r)
        case LevelOrder => Bfs([ln.value] + l)
        case PostOrder(l2r) => [ln.value.p] + After(top, ln.value.p, l2r)
    }

    constructor (top: Tree, kind: Kind)
      ensures Valid() && this.top == top && this.kind == kind && lc == None
      ensures Rest() == Order(kind, Link([], top))
    {
      this.kind := kind;
      this.top := top;
      lc, l, nerr := None, [], 0;
      ln := Some(Link([], top));
      new;
      if kind.PostOrder? {
        var first := FirstLeaf([], top, kind.l2r);
        ln := Some(first);
      } else if kind.LevelOrder? {
        var x := Link([], top);
        assert [x] + [] == [x];
        BfsIsLevels([], [x]);
        assert [] + [x] == [x] && Paths([]) == [];
      }
    }

    /** Down to the first leaf at or below a place. */
    method FirstLeaf(p: Path, t: Tree, l2r: bool) returns (x: Link)
      requires Exists(top, p) && LinkAt(top, p) == Link(p, t)
      ensures Exists(top, x.p) && x == LinkAt(top, x.p)
      ensures [x.p] + After(top, x.p, l2r) == Post(Link(p, t), l2r) + After(top, p, l2r)
    {
      hide After, Sub, Exists;
      x := Link(p, t);
      while x.t.kids != []
        invariant Exists(top, x.p) && x == LinkAt(top, x.p)
        invariant Post(x, l2r) + After(top, x.p, l2r) == Post(Link(p, t), l2r) + After(top, p, l2r)
        decreases x.t
      {
        FirstChild(top, x.p, l2r);
        DownFrom(top, x.p, Nth(|x.t.kids|, 0, l2r));
        x := Kid(x, Nth(|x.t.kids|, 0, l2r));
      }
    }

    /** What one call does: yields the first of what was to come, or says that nothing is. */
    ghost predicate Moved(nerrWas: int, restWas: seq<Path>, lcWas: Option<Link>, r: int)
      requires Valid()
      reads this
    {
      if nerrWas != 0 then r == nerrWas == nerr && lc == lcWas
      else r == 0 && lc.Some? && [lc.value.p] + Rest() == restWas
    }

    /** Puts the children of the next node onto the stack, the last to be visited first. */
    method PushKids(l2r: bool)
      requires ln.Some?
      modifies this`l
      ensures StackOrder(l, l2r) == PreFrom(ln.value, 0, l2r) + StackOrder(old(l), l2r)
    {
      hide PreFrom, StackOrder;
      var x := ln.value;
      var n := |x.t.kids|;
      var j := n;
      NoKidsLeft(x, l2r);
      while j > 0
        invariant 0 <= j <= n && StackOrder(l, l2r) == PreFrom(x, j, l2r) + StackOrder(old(l), l2r)
      {
        PushKid(x, j - 1, l2r, l, old(l));
        l := l + [Kid(x, Nth(n, j - 1, l2r))];
        j := j - 1;
      }
    }

    method PreNext(l2r: bool) returns (r: int)
      requires Valid() && kind == PreOrder(l2r)
      modifies this
      ensures Valid() && Moved(old(nerr), old(Rest()), old(lc), r)
    {
      hide PreFrom, Pre, StackOrder;
      if nerr != 0 {
        return nerr;
      }
      lc := ln;
      PushKids(l2r);
      PreStep(ln.value, l2r, l, old(l));
      StackTop(l, l2r);
      if l == [] {
        nerr := -ENOENT;
        ln := None;
      } else {
        ln := Some(l[|l| - 1]);
        l := l[..|l| - 1];
      }
      return 0;
    }

    lemma PreStep(x: Link, l2r: bool, l: seq<Link>, was: seq<Link>)
      requires StackOrder(l, l2r) == PreFrom(x, 0, l2r) + StackOrder(was, l2r)
      ensures Pre(x, l2r) + StackOrder(was, l2r) == [x.p] + StackOrder(l, l2r)
    {
      hide PreFrom, StackOrder;
    }

    lemma StackTop(l: seq<Link>, l2r: bool)
      ensures StackOrder(l, l2r) == if l == [] then [] else Pre(l[|l| - 1], l2r) + StackOrder(l[..|l| - 1], l2r)
    {
    }

    lemma NoKidsLeft(x: Link, l2r: bool)
      ensures PreFrom(x, |x.t.kids|, l2r) == []
    {
    }

    lemma PushKid(x: Link, j: nat, l2r: bool, l: seq<Link>, was: seq<Link>)
      requires j < |x.t.kids| && StackOrder(l, l2r) == PreFrom(x, j + 1, l2r) + StackOrder(was, l2r)
      ensures StackOrder(l + [Kid(x, Nth(|x.t.kids|, j, l2r))], l2r) == PreFrom(x, j, l2r) + StackOrder(was, l2r)
    {
      hide Pre;
      var kid := Kid(x, Nth(|x.t.kids|, j, l2r));
      assert (l + [kid])[..|l|] == l;
      assert Pre(kid, l2r) + PreFrom(x, j + 1, l2r) + StackOrder(was, l2r)
          == Pre(kid, l2r) + (PreFrom(x, j + 1, l2r) + StackOrder(was, l2r));
    }

    method LevelNext() returns (r: int)
      requires Valid() && kind == LevelOrder
      modifies this
      ensures Valid() && Moved(old(nerr), old(Rest()), old(lc), r)
    {
      if nerr != 0 {
        return nerr;
      }
      lc := ln;
      var x := ln.value;
      var n := |x.t.kids|;
      var i := 0;
      ghost var was := l;
      while i < n
        invariant 0 <= i <= n && l == was + KidsOf(x)[..i]
        invariant lc == old(ln) && ln == old(ln) && nerr == 0
      {
        l := l + [Kid(x, i)];
        i := i + 1;
      }
      assert l == was + KidsOf(x);
      BfsStep(x, was);
      if l == [] {
        nerr := -ENOENT;
        ln := None;
      } else {
        ln := Some(l[0]);
        assert [l[0]] + l[1..] == l;
        l := l[1..];
      }
      return 0;
    }

    /** From a finished node to the first leaf of its next brother, or else up to its parent. */
    method FromFinished(p: Path, l2r: bool) returns (x: Link)
      requires Exists(top, p) && p != []
      ensures Exists(top, x.p) && x == LinkAt(top, x.p)
      ensures [x.p] + After(top, x.p, l2r) == After(top, p, l2r)
    {
      hide After, Sub, Exists;
      UpAndDown(top, p);
      var up := p[..|p| - 1];
      var n := |Sub(top, up).kids|;
      var j := Nth(n, p[|p| - 1], l2r) + 1;
      if j < n {
        NextBrother(top, p, l2r, j);
        var brother := up + [Nth(n, j, l2r)];
        x := FirstLeaf(brother, Sub(top, brother), l2r);
      } else {
        NoBrother(top, p, l2r);
        x := LinkAt(top, up);
      }
    }

    method PostNext(l2r: bool) returns (r: int)
      requires Valid() && kind == PostOrder(l2r)
      modifies this
      ensures Valid() && Moved(old(nerr), old(Rest()), old(lc), r)
    {
      hide Sub, Exists;
      if nerr != 0 {
        return nerr;
      }
      lc := ln;
      var p := lc.value.p;
      if p != [] {
        var x := FromFinished(p, l2r);
        ln := Some(x);
      } else {
        nerr := -ENOENT;
        ln := None;
      }
      return 0;
    }

    method Next() returns (r: int)
      requires Valid()
      modifies this
      ensures Valid() && Moved(old(nerr), old(Rest()), old(lc), r)
    {
      match kind
      case PreOrder(l2r) => r := PreNext(l2r);
      case LevelOrder => r := LevelNext();
      case PostOrder(l2r) => r := PostNext(l2r);
    }

    method Get() returns (x: Option<Link>)
      ensures x == lc
    {
      return lc;
    }

    /** There is a next node exactly as long as something is to come. */
    method HasNext() returns (more: bool)
      requires Valid()
      ensures more <==> nerr == 0
      ensures more <==> Rest() != []
    {
      if nerr == 0 && kind.PreOrder? {
        assert Pre(ln.value, kind.l2r) != [];
      }
      return nerr == 0;
    }
  }

  /** Whether one place is visited before another. */
  ghost predicate Before(kind: Kind, p: Path, q: Path) {
    match kind
    case PreOrder(l2r) => PreBefore(p, q, l2r)
    case LevelOrder => LevelBefore(p, q)
    case PostOrder(l2r) => PostBefore(p, q, l2r)
  }

  /**
   * Run to exhaustion, an iterator yields the places at or below the top, each once: before those below it from
   * the chosen side, level by level, or after those below it from the chosen side.
   */
  method Visit(top: Tree, kind: Kind) returns (out: seq<Path>)
    ensures out == Order(kind, Link([], top))
    ensures EachOnce(Link([], top), out)
    ensures forall i, j :: 0 <= i < j < |out| ==> Before(kind, out[i], out[j])
  {
    hide Order, EachOnce, Before, Iterator.Rest;
    var it := new Iterator(top, kind);
    out := [];
    var more := it.HasNext();
    while more
      invariant it.Valid() && fresh(it) && (more <==> it.nerr == 0) && (more <==> it.Rest() != [])
      invariant out + it.Rest() == Order(kind, Link([], top))
      decreases |it.Rest()|
    {
      ghost var was := it.Rest();
      var r := it.Next();
      var x := it.Get();
      assert out + ([x.value.p] + it.Rest()) == out + [x.value.p] + it.Rest();
      out := out + [x.value.p];
      more := it.HasNext();
    }
    OrderOnce(kind, Link([], top));
    OrderSorted(kind, Link([], top));
  }

  lemma OrderOnce(kind: Kind, x: Link)
    ensures EachOnce(x, Order(kind, x))
  {
    match kind
    case PreOrder(l2r) => EachOncePre(x, l2r);
    case LevelOrder => EachOnceLevels(x);
    case PostOrder(l2r) => EachOncePost(x, l2r);
  }

  lemma OrderSorted(kind: Kind, x: Link)
    ensures forall i, j :: 0 <= i < j < |Order(kind, x)| ==> Before(kind, Order(kind, x)[i], Order(kind, x)[j])
  {
    match kind
    case PreOrder(l2r) => PreIsSorted(x, l2r);
    case LevelOrder => LevelOrderIsSorted(x);
    case PostOrder(l2r) => PostIsSorted(x, l2r);
  }
}
