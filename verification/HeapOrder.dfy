/** The order of a binary heap laid out in slots 1, 2, ..., as a property of the sequence of its values. */
module HeapOrder {

  type Compare<!V> = (V, V) -> int

  /** A total preorder: swapping the arguments swaps the sign, and "not greater" is transitive. */
  ghost predicate IsOrder<V(!new)>(cmp: Compare<V>) {
    && (forall a, b :: cmp(a, b) <= 0 <==> cmp(b, a) >= 0)
    && (forall a, b, c :: cmp(a, b) <= 0 && cmp(b, c) <= 0 ==> cmp(a, c) <= 0)
  }

  function Left(i: nat): nat {
    i * 2
  }

  function Right(i: nat): nat {
    Left(i) + 1
  }

  function Parent(i: nat): nat {
    i / 2
  }

  /** The value in slot `k`. */
  function At<V>(s: seq<V>, k: nat): V
    requires 1 <= k <= |s|
  {
    s[k - 1]
  }

  function Put<V>(s: seq<V>, k: nat, v: V): seq<V>
    requires 1 <= k <= |s|
  {
    s[k - 1 := v]
  }

  function Swapped<V>(s: seq<V>, i: nat, j: nat): (r: seq<V>)
    requires 1 <= i <= |s| && 1 <= j <= |s|
    ensures |r| == |s|
  {
    Put(Put(s, i, At(s, j)), j, At(s, i))
  }

  /** Slot `k` is not greater than its parent. */
  predicate LinkOk<V>(cmp: Compare<V>, s: seq<V>, k: nat)
    requires 2 <= k <= |s|
  {
    cmp(At(s, k), At(s, Parent(k))) <= 0
  }

  /** All links to parents from `lo` on are in order. */
  ghost predicate HeapFrom<V>(cmp: Compare<V>, s: seq<V>, lo: nat) {
    forall k :: 2 <= k <= |s| && lo <= Parent(k) ==> LinkOk(cmp, s, k)
  }

  /** The children of `p` are not greater than its parent, where that one is `lo` or later. */
  ghost predicate Bridged<V>(cmp: Compare<V>, s: seq<V>, lo: nat, p: nat) {
    1 <= p <= |s| && 1 <= lo
    && forall k :: 2 <= k <= |s| && Parent(k) == p && lo <= Parent(p) ==> cmp(At(s, k), At(s, Parent(p))) <= 0
  }

  /** In order but for the links down from `p`. */
  ghost predicate HeapAbove<V>(cmp: Compare<V>, s: seq<V>, lo: nat, p: nat) {
    Bridged(cmp, s, lo, p) && forall k :: 2 <= k <= |s| && lo <= Parent(k) && Parent(k) != p ==> LinkOk(cmp, s, k)
  }

  /** In order but for the link up from `p`. */
  ghost predicate HeapBelow<V>(cmp: Compare<V>, s: seq<V>, p: nat) {
    Bridged(cmp, s, 1, p) && forall k :: 2 <= k <= |s| && k != p ==> LinkOk(cmp, s, k)
  }

  lemma SwappedAt<V>(s: seq<V>, i: nat, j: nat, k: nat)
    requires 1 <= i <= |s| && 1 <= j <= |s| && 1 <= k <= |s|
    ensures At(Swapped(s, i, j), k) == if k == j then At(s, i) else if k == i then At(s, j) else At(s, k)
  {
  }

  // ----- down

  /** `i` is `p` or a child of it, and none of the three is greater. */
  ghost predicate Greatest<V>(cmp: Compare<V>, s: seq<V>, p: nat, i: nat) {
    && 1 <= p <= i <= |s| && (i == p || Parent(i) == p) && cmp(At(s, p), At(s, i)) <= 0
    && (Left(p) <= |s| ==> cmp(At(s, Left(p)), At(s, i)) <= 0)
    && (Right(p) <= |s| ==> cmp(At(s, Right(p)), At(s, i)) <= 0)
  }

  lemma DownDone<V(!new)>(cmp: Compare<V>, s: seq<V>, lo: nat, p: nat)
    requires HeapAbove(cmp, s, lo, p) && Greatest(cmp, s, p, p)
    ensures HeapFrom(cmp, s, lo)
  {
    hide Bridged;
    forall k | 2 <= k <= |s| && lo <= Parent(k) ensures LinkOk(cmp, s, k) {
      if Parent(k) == p {
        assert k == Left(p) || k == Right(p);
      }
    }
  }

  lemma DownSwap<V(!new)>(cmp: Compare<V>, s: seq<V>, lo: nat, p: nat, i: nat)
    requires IsOrder(cmp) && HeapAbove(cmp, s, lo, p) && Greatest(cmp, s, p, i) && i != p && lo <= p
    ensures HeapAbove(cmp, Swapped(s, p, i), lo, i)
  {
    var r := Swapped(s, p, i);
    hide Swapped, At, Bridged;
    forall k | 2 <= k <= |r| && lo <= Parent(k) && Parent(k) != i ensures LinkOk(cmp, r, k) {
      DownSwapLink(cmp, s, lo, p, i, k);
    }
    assert Bridged(cmp, r, lo, i) by {
      DownSwapBridge(cmp, s, lo, p, i);
    }
  }

  lemma DownSwapLink<V(!new)>(cmp: Compare<V>, s: seq<V>, lo: nat, p: nat, i: nat, k: nat)
    requires IsOrder(cmp) && HeapAbove(cmp, s, lo, p) && Greatest(cmp, s, p, i) && i != p && lo <= p
    requires 2 <= k <= |s| && lo <= Parent(k) && Parent(k) != i
    ensures LinkOk(cmp, Swapped(s, p, i), k)
  {
    hide Swapped, At;
    SwappedAt(s, p, i, k);
    SwappedAt(s, p, i, Parent(k));
    if Parent(k) == p {
      assert k == Left(p) || k == Right(p);
    } else if k == p {
      assert Parent(i) == p && lo <= Parent(p);
    } else {
      assert LinkOk(cmp, s, k);
    }
  }

  lemma DownSwapBridge<V(!new)>(cmp: Compare<V>, s: seq<V>, lo: nat, p: nat, i: nat)
    requires IsOrder(cmp) && HeapAbove(cmp, s, lo, p) && Greatest(cmp, s, p, i) && i != p && lo <= p
    ensures Bridged(cmp, Swapped(s, p, i), lo, i)
  {
    hide Swapped, At;
    var r := Swapped(s, p, i);
    forall k | 2 <= k <= |r| && Parent(k) == i ensures cmp(At(r, k), At(r, Parent(i))) <= 0 {
      SwappedAt(s, p, i, k);
      SwappedAt(s, p, i, p);
      assert LinkOk(cmp, s, k);
    }
  }

  // ----- up

  lemma UpDone<V(!new)>(cmp: Compare<V>, s: seq<V>, i: nat)
    requires HeapBelow(cmp, s, i) && (i == 1 || cmp(At(s, i), At(s, Parent(i))) <= 0)
    ensures HeapFrom(cmp, s, 1)
  {
  }

  lemma UpSwap<V(!new)>(cmp: Compare<V>, s: seq<V>, i: nat)
    requires IsOrder(cmp) && HeapBelow(cmp, s, i) && i > 1 && cmp(At(s, i), At(s, Parent(i))) > 0
    ensures HeapBelow(cmp, Swapped(s, i, Parent(i)), Parent(i))
  {
    var p := Parent(i);
    var r := Swapped(s, i, p);
    hide Swapped, At, Bridged;
    forall k | 2 <= k <= |r| && k != p ensures LinkOk(cmp, r, k) {
      UpSwapLink(cmp, s, i, k);
    }
    assert Bridged(cmp, r, 1, p) by {
      UpSwapBridge(cmp, s, i);
    }
  }

  lemma UpSwapLink<V(!new)>(cmp: Compare<V>, s: seq<V>, i: nat, k: nat)
    requires IsOrder(cmp) && HeapBelow(cmp, s, i) && i > 1 && cmp(At(s, i), At(s, Parent(i))) > 0
    requires 2 <= k <= |s| && k != Parent(i)
    ensures LinkOk(cmp, Swapped(s, i, Parent(i)), k)
  {
    hide Swapped, At;
    var p := Parent(i);
    SwappedAt(s, i, p, k);
    SwappedAt(s, i, p, Parent(k));
    assert k != i ==> LinkOk(cmp, s, k);
    assert cmp(At(s, p), At(s, i)) <= 0;
  }

  lemma UpSwapBridge<V(!new)>(cmp: Compare<V>, s: seq<V>, i: nat)
    requires IsOrder(cmp) && HeapBelow(cmp, s, i) && i > 1 && cmp(At(s, i), At(s, Parent(i))) > 0
    ensures Bridged(cmp, Swapped(s, i, Parent(i)), 1, Parent(i))
  {
    hide Swapped, At;
    var p := Parent(i);
    var r := Swapped(s, i, p);
    forall k | 2 <= k <= |r| && Parent(k) == p && 1 <= Parent(p) ensures cmp(At(r, k), At(r, Parent(p))) <= 0 {
      SwappedAt(s, i, p, k);
      SwappedAt(s, i, p, Parent(p));
      assert LinkOk(cmp, s, p);
      assert k != i ==> LinkOk(cmp, s, k);
    }
  }

  // ----- the two ways out after a change of one value

  /** With the value in slot `i` as it was before, all is in order. */
  ghost predicate ChangedAt<V(!new)>(cmp: Compare<V>, s: seq<V>, i: nat) {
    1 <= i <= |s| && exists was: V :: HeapFrom(cmp, Put(s, i, was), 1)
  }

  /** One value of a heap was replaced. */
  lemma ReplacedIsChanged<V(!new)>(cmp: Compare<V>, was: seq<V>, i: nat, v: V)
    requires HeapFrom(cmp, was, 1) && 1 <= i <= |was|
    ensures ChangedAt(cmp, Put(was, i, v), i)
  {
    assert Put(Put(was, i, v), i, At(was, i)) == was;
  }

  lemma ChangedIsBridged<V(!new)>(cmp: Compare<V>, s: seq<V>, i: nat)
    requires IsOrder(cmp) && ChangedAt(cmp, s, i)
    ensures Bridged(cmp, s, 1, i)
    ensures forall k :: 2 <= k <= |s| && k != i && Parent(k) != i ==> LinkOk(cmp, s, k)
  {
    var was: V :| HeapFrom(cmp, Put(s, i, was), 1);
    var w := Put(s, i, was);
    forall k | 2 <= k <= |s| && Parent(k) == i && 1 <= Parent(i) ensures cmp(At(s, k), At(s, Parent(i))) <= 0 {
      assert LinkOk(cmp, w, k) && LinkOk(cmp, w, i);
    }
    forall k | 2 <= k <= |s| && k != i && Parent(k) != i ensures LinkOk(cmp, s, k) {
      assert LinkOk(cmp, w, k);
    }
  }

  /** Grown past its parent, so past its children too. */
  lemma ChangedUp<V(!new)>(cmp: Compare<V>, s: seq<V>, i: nat)
    requires IsOrder(cmp) && ChangedAt(cmp, s, i) && i > 1 && cmp(At(s, i), At(s, Parent(i))) > 0
    ensures HeapBelow(cmp, s, i)
  {
    ChangedIsBridged(cmp, s, i);
    hide At;
    forall k | 2 <= k <= |s| && k != i ensures LinkOk(cmp, s, k) {
      if Parent(k) == i {
        assert cmp(At(s, k), At(s, Parent(i))) <= 0;
        assert cmp(At(s, Parent(i)), At(s, i)) <= 0;
      }
    }
  }

  /** Still not greater than its parent. */
  lemma ChangedDown<V(!new)>(cmp: Compare<V>, s: seq<V>, i: nat)
    requires IsOrder(cmp) && ChangedAt(cmp, s, i) && (i == 1 || cmp(At(s, i), At(s, Parent(i))) <= 0)
    ensures HeapAbove(cmp, s, 1, i)
  {
    ChangedIsBridged(cmp, s, i);
  }

  // ----- what the order is good for

  /** Nothing is greater than the root. */
  lemma {:induction false} RootIsGreatest<V(!new)>(cmp: Compare<V>, s: seq<V>, k: nat)
    requires IsOrder(cmp) && HeapFrom(cmp, s, 1) && 1 <= k <= |s|
    ensures cmp(At(s, k), At(s, 1)) <= 0
    decreases k
  {
    if k > 1 {
      assert LinkOk(cmp, s, k);
      RootIsGreatest(cmp, s, Parent(k));
    }
  }

  /** The last value goes to the root. */
  lemma RootReplaced<V(!new)>(cmp: Compare<V>, s: seq<V>)
    requires HeapFrom(cmp, s, 1) && |s| > 1
    ensures HeapAbove(cmp, Swapped(s, 1, |s|)[..|s| - 1], 1, 1)
  {
    var r := Swapped(s, 1, |s|)[..|s| - 1];
    forall k | 2 <= k <= |r| && 1 <= Parent(k) && Parent(k) != 1 ensures LinkOk(cmp, r, k) {
      assert LinkOk(cmp, s, k);
    }
  }

  /** A value goes to the end. */
  lemma LastAdded<V(!new)>(cmp: Compare<V>, s: seq<V>, v: V)
    requires HeapFrom(cmp, s, 1)
    ensures HeapBelow(cmp, s + [v], |s| + 1)
  {
    var r := s + [v];
    forall k | 2 <= k <= |r| && k != |s| + 1 ensures LinkOk(cmp, r, k) {
      assert LinkOk(cmp, s, k);
    }
  }

  /** Leaves have no links down. */
  lemma BottomIsHeap<V(!new)>(cmp: Compare<V>, s: seq<V>, lo: nat)
    requires lo > |s| / 2
    ensures HeapFrom(cmp, s, lo)
  {
  }

  /** One subtree more. */
  lemma OneSubtreeMore<V(!new)>(cmp: Compare<V>, s: seq<V>, i: nat)
    requires HeapFrom(cmp, s, i + 1) && 1 <= i <= |s|
    ensures HeapAbove(cmp, s, i, i)
  {
  }
}
