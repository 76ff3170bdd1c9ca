/** What the nodes of a trie hold, as a value: the links between them and the map they stand for. */
module TrieShape {
  import opened Basics
  import opened TriePath

  /** What callers store: an address, never null. */
  type Value = nat

  const MAX_KEY_LEN := 1024

  /** A node: sixteen children, and the value of the key that ends here. */
  class Node {
    var n: seq<Node?>
    var v: Option<Value>

    constructor ()
      ensures n == Childless() && v == None
    {
      n := Childless();
      v := None;
    }
  }

  function Childless(): seq<Node?> {
    seq(16, _ => null)
  }

  /** What one node holds at one time. */
  datatype Cell = Cell(n: seq<Node?>, v: Option<Value>)

  type Nodes = map<Path, Node>

  type View = map<Path, Cell>

  function KidOf(at: Nodes, p: Path, i: Nib): Node? {
    if Kid(p, i) in at then at[Kid(p, i)] else null
  }

  /** The node at `p` points to exactly the nodes one step further; keys end at whole bytes only. */
  ghost predicate CellOk(at: Nodes, view: View, p: Path) {
    && p in view && |view[p].n| == 16
    && (forall i: Nib :: view[p].n[i] == KidOf(at, p, i))
    && (view[p].v.Some? ==> |p| % 2 == 0 && p != [])
    && |p| < 2 * MAX_KEY_LEN
  }

  ghost predicate PrefixClosed(at: Nodes) {
    [] in at && forall p :: p in at && p != [] ==> p[..|p| - 1] in at
  }

  ghost predicate Apart(at: Nodes) {
    forall p, q :: p in at && q in at && p != q ==> at[p] != at[q]
  }

  ghost predicate Linked(at: Nodes, view: View, rt: Node) {
    && PrefixClosed(at) && Apart(at) && at[[]] == rt && view.Keys == at.Keys
    && forall p :: p in at ==> CellOk(at, view, p)
  }

  ghost predicate IsLeaf(at: Nodes, p: Path) {
    forall i: Nib :: Kid(p, i) !in at
  }

  /** A leaf without a value has no business being there. */
  ghost predicate LeafOk(at: Nodes, view: View, p: Path) {
    p in view && (IsLeaf(at, p) && p != [] ==> view[p].v.Some?)
  }

  ghost predicate Pruned(at: Nodes, view: View) {
    forall p :: p in at ==> LeafOk(at, view, p)
  }

  /** The map that the nodes stand for, keyed by path. */
  function Content(view: View): map<Path, Value> {
    map p | p in view && view[p].v.Some? :: view[p].v.value
  }

  lemma KidFacts(at: Nodes, view: View, rt: Node, p: Path, i: Nib)
    requires Linked(at, view, rt) && p in at
    ensures |view[p].n| == 16 && view[p].n[i] == KidOf(at, p, i)
  {
    assert CellOk(at, view, p);
  }

  /** Below a missing node nothing is there. */
  lemma {:induction false} NotBelow(at: Nodes, p: Path, q: Path)
    requires PrefixClosed(at) && p !in at && p <= q
    ensures q !in at
    decreases |q|
  {
    if p != q {
      NotBelow(at, p, q[..|q| - 1]);
    }
  }

  lemma RootIsThere(at: Nodes, view: View, rt: Node)
    requires Linked(at, view, rt)
    ensures [] in at && at[[]] == rt
  {
  }

  /** No value is stored under the empty key. */
  lemma RootHasNoValue(at: Nodes, view: View, rt: Node)
    requires Linked(at, view, rt)
    ensures [] !in Content(view)
  {
    assert CellOk(at, view, []);
  }

  // ----- a new node

  lemma KidAdded(at: Nodes, at2: Nodes, p: Path, i: Nib, m: Node, q: Path, j: Nib)
    requires PrefixClosed(at) && Kid(p, i) !in at && at2 == at[Kid(p, i) := m]
    ensures KidOf(at2, q, j) == if q == p && j == i then m else KidOf(at, q, j)
    ensures q == Kid(p, i) ==> KidOf(at2, q, j) == null
  {
    if Kid(q, j) == Kid(p, i) {
      KidInjective(q, j, p, i);
    }
    assert Kid(q, j)[..|Kid(q, j)| - 1] == q;
  }

  lemma CellAfterAdd(at: Nodes, view: View, rt: Node, p: Path, i: Nib, m: Node, at2: Nodes, view2: View, q: Path)
    requires Linked(at, view, rt) && p in at && Kid(p, i) !in at && |p| + 1 < 2 * MAX_KEY_LEN && |view[p].n| == 16
    requires at2 == at[Kid(p, i) := m] && q in at2
    requires view2 == view[p := Cell(view[p].n[i := m], view[p].v)][Kid(p, i) := Cell(Childless(), None)]
    ensures CellOk(at2, view2, q)
  {
    hide Apart;
    if q != Kid(p, i) {
      assert CellOk(at, view, q);
    }
    forall j: Nib ensures view2[q].n[j] == KidOf(at2, q, j) {
      KidAdded(at, at2, p, i, m, q, j);
    }
  }

  lemma LinkedAfterAdd(at: Nodes, view: View, rt: Node, p: Path, i: Nib, m: Node, at2: Nodes, view2: View)
    requires Linked(at, view, rt) && p in at && Kid(p, i) !in at && |p| + 1 < 2 * MAX_KEY_LEN && |view[p].n| == 16
    requires forall q :: q in at ==> at[q] != m
    requires at2 == at[Kid(p, i) := m]
    requires view2 == view[p := Cell(view[p].n[i := m], view[p].v)][Kid(p, i) := Cell(Childless(), None)]
    ensures Linked(at2, view2, rt) && Content(view2) == Content(view)
  {
    hide CellOk, KidOf, Kid, Apart, PrefixClosed, Content;
    forall q | q in at2 ensures CellOk(at2, view2, q) {
      CellAfterAdd(at, view, rt, p, i, m, at2, view2, q);
    }
    ApartAfterAdd(at, Kid(p, i), m);
    ClosedAfterAdd(at, p, i, m);
    ContentAfterAdd(view, p, i, m, view2);
    assert view2.Keys == at2.Keys;
    NewRootSame(at, p, i, m);
  }

  lemma NewRootSame(at: Nodes, p: Path, i: Nib, m: Node)
    ensures [] in at ==> at[Kid(p, i) := m][[]] == at[[]]
  {
  }

  lemma ApartAfterAdd(at: Nodes, q: Path, m: Node)
    requires Apart(at) && forall p :: p in at ==> at[p] != m
    ensures Apart(at[q := m])
  {
  }

  lemma ClosedAfterAdd(at: Nodes, p: Path, i: Nib, m: Node)
    requires PrefixClosed(at) && p in at
    ensures PrefixClosed(at[Kid(p, i) := m])
  {
  }

  lemma ContentAfterAdd(view: View, p: Path, i: Nib, m: Node, view2: View)
    requires p in view && Kid(p, i) !in view && |view[p].n| == 16
    requires view2 == view[p := Cell(view[p].n[i := m], view[p].v)][Kid(p, i) := Cell(Childless(), None)]
    ensures Content(view2) == Content(view)
  {
    forall q ensures q in Content(view2) <==> q in Content(view) {
    }
  }

  /** All nodes are still there, and the new ones lie on the way to `q`. */
  ghost predicate Grown(was: Nodes, at: Nodes, q: Path) {
    && (forall p :: p in was ==> p in at && at[p] == was[p])
    && (forall p :: p in at ==> p in was || p <= q)
  }

  lemma NothingGrown(at: Nodes, q: Path)
    ensures Grown(at, at, q)
  {
  }

  lemma GrownFurther(was: Nodes, at: Nodes, p: Path, q: Path)
    requires Grown(was, at, p) && p <= q
    ensures Grown(was, at, q)
  {
    forall r | r in at ensures r in was || r <= q {
      if r !in was {
        assert r == p[..|r|] == q[..|r|];
      }
    }
  }

  lemma GrownByOne(was: Nodes, at: Nodes, q: Path, m: Node)
    requires Grown(was, at, q) && q !in at
    ensures Grown(was, at[q := m], q)
  {
  }

  /** Setting a value keeps the links, and changes the map at that path alone. */
  lemma LinkedAfterSet(at: Nodes, view: View, rt: Node, q: Path, v: Value)
    requires Linked(at, view, rt) && q in at && q != [] && |q| % 2 == 0
    ensures Linked(at, view[q := Cell(view[q].n, Some(v))], rt)
    ensures Content(view[q := Cell(view[q].n, Some(v))]) == Content(view)[q := v]
  {
    hide PrefixClosed, Apart, CellOk;
    var view2 := view[q := Cell(view[q].n, Some(v))];
    forall p | p in at ensures CellOk(at, view2, p) {
      CellAfterSet(at, view, q, v, p);
    }
    ContentAfterSet(view, q, v);
  }

  lemma CellAfterSet(at: Nodes, view: View, q: Path, v: Value, p: Path)
    requires q in view && q != [] && |q| % 2 == 0 && CellOk(at, view, p)
    ensures CellOk(at, view[q := Cell(view[q].n, Some(v))], p)
  {
  }

  lemma ContentAfterSet(view: View, q: Path, v: Value)
    requires q in view
    ensures Content(view[q := Cell(view[q].n, Some(v))]) == Content(view)[q := v]
  {
  }

  /** The way to a valued node ends in no empty leaf. */
  lemma PrunedAfterSet(was: Nodes, before: View, at: Nodes, view: View, rt: Node, q: Path)
    requires Pruned(was, before) && was.Keys == before.Keys && Linked(at, view, rt) && Grown(was, at, q)
    requires q in at && view[q].v.Some?
    requires forall p :: p in Content(before) ==> p in Content(view)
    ensures Pruned(at, view)
  {
    hide CellOk, Apart, PrefixClosed, LeafOk, Kid, IsLeaf, Content;
    forall p | p in at ensures LeafOk(at, view, p) {
      if p in was {
        OldLeafOk(was, before, at, view, p);
      } else if p != q {
        NotLeafAbove(at, view, p, q);
      } else {
        ValuedIsOk(at, view, p);
      }
    }
  }

  lemma ValuedIsOk(at: Nodes, view: View, p: Path)
    requires p in view && view[p].v.Some?
    ensures LeafOk(at, view, p)
  {
  }

  lemma OldLeafOk(was: Nodes, before: View, at: Nodes, view: View, p: Path)
    requires p in was && LeafOk(was, before, p) && p in view
    requires forall r :: r in was ==> r in at
    requires forall r :: r in Content(before) ==> r in Content(view)
    ensures LeafOk(at, view, p)
  {
    if IsLeaf(at, p) && p != [] {
      assert IsLeaf(was, p);
      assert p in Content(before);
    }
  }

  lemma NotLeafAbove(at: Nodes, view: View, p: Path, q: Path)
    requires PrefixClosed(at) && q in at && p <= q && p != q && p in view
    ensures !IsLeaf(at, p) && LeafOk(at, view, p)
  {
    var k := Kid(p, q[|p|]);
    assert k <= q;
    if k !in at {
      NotBelow(at, k, q);
    }
  }

  // ----- pruning

  /** No empty leaf anywhere, except perhaps at `p`. */
  ghost predicate PrunedBut(at: Nodes, view: View, p: Path) {
    forall q :: q in at && q != p ==> LeafOk(at, view, q)
  }

  lemma PrunedButNothing(at: Nodes, view: View, p: Path)
    requires PrunedBut(at, view, p) && LeafOk(at, view, p)
    ensures Pruned(at, view)
  {
  }

  /** What is left was there before, and what is gone lay below `p`. */
  ghost predicate Shrunk(was: Nodes, at: Nodes, p: Path) {
    && (forall q :: q in at ==> q in was && at[q] == was[q])
    && (forall q :: q in was && q !in at ==> p <= q && p != q)
  }

  lemma ShrunkByOne(was: Nodes, mid: Nodes, p: Path, k: Path, q: Path)
    requires Shrunk(was, mid, k) && p <= k && p <= q && p != q
    ensures Shrunk(was, mid, p) && Shrunk(was, mid - {q}, p)
  {
    forall x | x in was && x !in mid ensures p <= x && p != x {
      assert k <= x;
    }
  }

  /** Clearing a value keeps the links, and takes that path alone out of the map. */
  lemma LinkedAfterClear(at: Nodes, view: View, rt: Node, q: Path, view2: View)
    requires Linked(at, view, rt) && q in at && view2 == view[q := Cell(view[q].n, None)]
    ensures Linked(at, view2, rt) && Content(view2) == Content(view) - {q}
  {
    hide PrefixClosed, Apart, CellOk, Content;
    forall p | p in at ensures CellOk(at, view2, p) {
      CellAfterClear(at, view, q, p);
    }
    ContentAfterClear(view, q);
  }

  lemma CellAfterClear(at: Nodes, view: View, q: Path, p: Path)
    requires q in view && CellOk(at, view, p)
    ensures CellOk(at, view[q := Cell(view[q].n, None)], p)
  {
  }

  lemma ContentAfterClear(view: View, q: Path)
    requires q in view
    ensures Content(view[q := Cell(view[q].n, None)]) == Content(view) - {q}
  {
  }

  lemma PrunedAfterClear(at: Nodes, view: View, q: Path)
    requires Pruned(at, view) && q in view
    ensures PrunedBut(at, view[q := Cell(view[q].n, None)], q)
  {
    hide IsLeaf;
    forall p | p in at && p != q ensures LeafOk(at, view[q := Cell(view[q].n, None)], p) {
      assert LeafOk(at, view, p);
    }
  }

  /** A node without children is a leaf. */
  lemma ChildlessIsLeaf(at: Nodes, view: View, q: Path)
    requires CellOk(at, view, q)
    requires forall x, i: Nib :: x == Kid(q, i) && x in at ==> at[x] is Node
    ensures IsLeaf(at, q) <==> view[q].n == Childless()
  {
    if IsLeaf(at, q) {
      forall i: Nib ensures view[q].n[i] == null {
        assert view[q].n[i] == KidOf(at, q, i);
      }
    } else {
      var i: Nib :| Kid(q, i) in at;
      assert view[q].n[i] == KidOf(at, q, i);
    }
  }

  lemma KidDropped(at: Nodes, p: Path, i: Nib, q: Path, j: Nib)
    ensures KidOf(at - {Kid(p, i)}, q, j) == if q == p && j == i then null else KidOf(at, q, j)
  {
    if Kid(q, j) == Kid(p, i) {
      KidInjective(q, j, p, i);
    }
  }

  lemma CellAfterDrop(at: Nodes, view: View, p: Path, i: Nib, view2: View, q: Path)
    requires p in view && |view[p].n| == 16 && CellOk(at, view, q) && q != Kid(p, i)
    requires view2 == view[p := Cell(view[p].n[i := null], view[p].v)] - {Kid(p, i)}
    ensures CellOk(at - {Kid(p, i)}, view2, q)
  {
    forall j: Nib ensures view2[q].n[j] == KidOf(at - {Kid(p, i)}, q, j) {
      KidDropped(at, p, i, q, j);
    }
  }

  lemma ClosedAfterDrop(at: Nodes, p: Path, i: Nib)
    requires PrefixClosed(at) && IsLeaf(at, Kid(p, i))
    ensures PrefixClosed(at - {Kid(p, i)})
  {
    var k := Kid(p, i);
    forall q | q in at && q != k && q != [] ensures q[..|q| - 1] in at && q[..|q| - 1] != k {
      assert q == Kid(q[..|q| - 1], q[|q| - 1]);
    }
  }

  /** Cutting an empty leaf off keeps the links and the map. */
  lemma LinkedAfterDrop(at: Nodes, view: View, rt: Node, p: Path, i: Nib, at2: Nodes, view2: View)
    requires Linked(at, view, rt) && p in at && Kid(p, i) in at && |view[p].n| == 16
    requires IsLeaf(at, Kid(p, i)) && view[Kid(p, i)].v == None
    requires at2 == at - {Kid(p, i)}
    requires view2 == view[p := Cell(view[p].n[i := null], view[p].v)] - {Kid(p, i)}
    ensures Linked(at2, view2, rt) && Content(view2) == Content(view)
  {
    hide CellOk, KidOf, Kid, IsLeaf, Content, PrefixClosed;
    forall q | q in at2 ensures CellOk(at2, view2, q) {
      CellAfterDrop(at, view, p, i, view2, q);
    }
    ClosedAfterDrop(at, p, i);
    DropIsNotRoot(at, p, i);
    ContentAfterDrop(view, p, i, view2);
    assert view2.Keys == at2.Keys;
  }

  lemma DropIsNotRoot(at: Nodes, p: Path, i: Nib)
    requires [] in at
    ensures [] in at - {Kid(p, i)} && (at - {Kid(p, i)})[[]] == at[[]]
  {
  }

  lemma ContentAfterDrop(view: View, p: Path, i: Nib, view2: View)
    requires p in view && Kid(p, i) in view && |view[p].n| == 16 && view[Kid(p, i)].v == None
    requires view2 == view[p := Cell(view[p].n[i := null], view[p].v)] - {Kid(p, i)}
    ensures Content(view2) == Content(view)
  {
  }

  /** After that only the parent may have become an empty leaf. */
  lemma PrunedAfterDrop(at: Nodes, view: View, p: Path, i: Nib, at2: Nodes, view2: View)
    requires PrunedBut(at, view, Kid(p, i)) && p in view && |view[p].n| == 16
    requires at2 == at - {Kid(p, i)}
    requires view2 == view[p := Cell(view[p].n[i := null], view[p].v)] - {Kid(p, i)}
    ensures PrunedBut(at2, view2, p)
  {
    hide Kid;
    forall q | q in at2 && q != p ensures LeafOk(at2, view2, q) {
      assert LeafOk(at, view, q);
      if IsLeaf(at2, q) {
        forall j: Nib ensures Kid(q, j) !in at {
          if Kid(q, j) in at {
            KidInjective(q, j, p, i);
          }
        }
      }
    }
  }

  // ----- what the map says about the nodes

  /** A node with a child has that child for some nibble. */
  lemma ChildOf(at: Nodes, p: Path) returns (i: Nib)
    requires !IsLeaf(at, p)
    ensures Kid(p, i) in at
  {
    i :| Kid(p, i) in at;
  }

  /** Below every node but the root there is a key: no branch is dead. */
  lemma {:induction false} SomeKeyBelow(at: Nodes, view: View, rt: Node, p: Path) returns (q: Path)
    requires Linked(at, view, rt) && Pruned(at, view) && p in at && (p != [] || !IsLeaf(at, []))
    ensures q in Content(view) && p <= q
    decreases 2 * MAX_KEY_LEN - |p|
  {
    hide Apart, PrefixClosed, IsLeaf;
    assert CellOk(at, view, p) && LeafOk(at, view, p);
    if IsLeaf(at, p) {
      q := p;
    } else {
      var i := ChildOf(at, p);
      assert CellOk(at, view, Kid(p, i));
      q := SomeKeyBelow(at, view, rt, Kid(p, i));
      KidExtends(p, i);
    }
  }

  /** Every stored path spells a key: a non-empty one. */
  lemma StoredIsKey(at: Nodes, view: View, rt: Node, q: Path)
    requires Linked(at, view, rt) && q in Content(view)
    ensures |q| % 2 == 0 && q != [] && Nibbles(Bytes(q)) == q
  {
    assert CellOk(at, view, q);
    NibblesOfBytes(q);
  }

  /** A stored path below a key's is that of a longer key. */
  lemma RestOfKey(at: Nodes, view: View, rt: Node, key: seq<Byte>, q: Path) returns (k: seq<Byte>)
    requires Linked(at, view, rt) && q in Content(view) && Nibbles(key) <= q
    ensures Nibbles(key + k) == q
  {
    hide Linked, Nibbles, Bytes, Content;
    StoredIsKey(at, view, rt, q);
    var rest := q[2 * |key|..];
    k := Bytes(rest);
    NibblesOfBytes(rest);
    NibblesConcat(key, k);
  }
}
