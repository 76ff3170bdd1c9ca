/** When two tries are the same: node by node, and as maps. */
module TrieSame {
  import opened Basics
  import opened TriePath
  import opened TrieShape
  import opened TrieOrder

  type Compare = (Value, Value) -> int

  /** The same value or none; a result other than zero says "the same". */
  predicate SameValue(cmp: Compare, a: Option<Value>, b: Option<Value>) {
    a.Some? == b.Some? && (a.Some? ==> cmp(a.value, b.value) != 0)
  }

  predicate SameAt(cmp: Compare, v0: View, v1: View, q: Path) {
    (q in v0 <==> q in v1) && (q in v0 && q in v1 ==> SameValue(cmp, v0[q].v, v1[q].v))
  }

  /** The same at `low` and below its first `upto` children. */
  ghost predicate SamePart(cmp: Compare, v0: View, v1: View, low: Path, upto: int) {
    forall q :: InPart(low, upto, q) ==> SameAt(cmp, v0, v1, q)
  }

  lemma SelfSame(cmp: Compare, v0: View, v1: View, low: Path)
    ensures SamePart(cmp, v0, v1, low, 0) <==> SameAt(cmp, v0, v1, low)
  {
    assert InPart(low, 0, low);
    forall q | InPart(low, 0, q) ensures q == low {
    }
  }

  lemma PartDiffers(cmp: Compare, v0: View, v1: View, low: Path, upto: int, q: Path)
    requires InPart(low, upto, q) && !SameAt(cmp, v0, v1, q)
    ensures !SamePart(cmp, v0, v1, low, upto)
  {
  }

  lemma OneMoreKid(cmp: Compare, v0: View, v1: View, low: Path, i: Nib)
    ensures SamePart(cmp, v0, v1, low, i + 1) <==>
            SamePart(cmp, v0, v1, low, i) && SamePart(cmp, v0, v1, Kid(low, i), 16)
  {
    hide SameAt;
    forall q ensures InPart(low, i + 1, q) <==> InPart(low, i, q) || InPart(Kid(low, i), 16, q) {
      WholePart(Kid(low, i), q);
      if low <= q {
        PartOrKid(low, i, q);
      } else if Kid(low, i) <= q {
        PartBeforeKid(low, i, low, q);
      }
    }
  }

  /** Once a part differs the whole does. */
  lemma WholeDiffers(cmp: Compare, v0: View, v1: View, low: Path, upto: int)
    requires upto <= 16 && !SamePart(cmp, v0, v1, low, upto)
    ensures !SamePart(cmp, v0, v1, low, 16)
  {
    hide SameAt;
    var q :| InPart(low, upto, q) && !SameAt(cmp, v0, v1, q);
    assert InPart(low, 16, q);
  }

  lemma NeitherBelow(cmp: Compare, v0: View, v1: View, at0: Nodes, at1: Nodes, p: Path)
    requires PrefixClosed(at0) && PrefixClosed(at1) && v0.Keys == at0.Keys && v1.Keys == at1.Keys
    requires p !in at0 && p !in at1
    ensures SamePart(cmp, v0, v1, p, 16)
  {
    forall q | InPart(p, 16, q) ensures SameAt(cmp, v0, v1, q) {
      NotBelow(at0, p, q);
      NotBelow(at1, p, q);
    }
  }

  lemma OnlyOneBelow(cmp: Compare, v0: View, v1: View, p: Path)
    requires p in v0 <==> p !in v1
    ensures !SamePart(cmp, v0, v1, p, 16)
  {
    PartDiffers(cmp, v0, v1, p, 16, p);
  }

  /** The same keys, and values that compare as the same. */
  ghost predicate SameMap(cmp: Compare, c0: map<Path, Value>, c1: map<Path, Value>) {
    c0.Keys == c1.Keys && forall q :: q in c0 && q in c1 ==> cmp(c0[q], c1[q]) != 0
  }

  lemma SameNodesSameMap(cmp: Compare, v0: View, v1: View)
    requires SamePart(cmp, v0, v1, [], 16)
    ensures SameMap(cmp, Content(v0), Content(v1))
  {
    forall q ensures q in Content(v0) <==> q in Content(v1) {
      assert InPart([], 16, q);
    }
    forall q | q in Content(v0) && q in Content(v1) ensures cmp(Content(v0)[q], Content(v1)[q]) != 0 {
      assert InPart([], 16, q) && SameAt(cmp, v0, v1, q);
    }
  }

  /** A node of a pruned trie is on the way to a key, so the other trie has it too. */
  lemma NodeInBoth(v0: View, v1: View, at0: Nodes, at1: Nodes, rt0: Node, rt1: Node, q: Path)
    requires Linked(at0, v0, rt0) && Pruned(at0, v0) && Linked(at1, v1, rt1)
    requires Content(v0).Keys <= Content(v1).Keys && q in at0
    ensures q in at1
  {
    hide CellOk, Apart, LeafOk;
    if q != [] {
      var k := SomeKeyBelow(at0, v0, rt0, q);
      assert k in Content(v1);
      if q !in at1 {
        NotBelow(at1, q, k);
      }
    }
  }

  lemma SameMapSameNodes(cmp: Compare, v0: View, v1: View, at0: Nodes, at1: Nodes, rt0: Node, rt1: Node)
    requires Linked(at0, v0, rt0) && Pruned(at0, v0) && Linked(at1, v1, rt1) && Pruned(at1, v1)
    requires SameMap(cmp, Content(v0), Content(v1))
    ensures SamePart(cmp, v0, v1, [], 16)
  {
    hide CellOk, Apart, LeafOk, PrefixClosed, Pruned;
    forall q | InPart([], 16, q) ensures SameAt(cmp, v0, v1, q) {
      if q in v0 {
        NodeInBoth(v0, v1, at0, at1, rt0, rt1, q);
      }
      if q in v1 {
        NodeInBoth(v1, v0, at1, at0, rt1, rt0, q);
      }
      assert q in Content(v0) <==> q in Content(v1);
    }
  }
}
