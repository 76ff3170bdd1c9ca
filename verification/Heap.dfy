/** The binary heap whose nodes know their slot. */
module Heap {
  import opened Basics
  import opened HeapOrder

  class Node<V> {
    var i: nat
    var v: V

    constructor (v: V)
      ensures this.v == v
    {
      this.v := v;
      i := 0;
    }
  }

  /** The slots: none at 0, nodes from 1 on. */
  predicate Full<V>(b: seq<Node?<V>>) {
    |b| > 0 && b[0] == null && forall k :: 1 <= k < |b| ==> b[k] != null
  }

  /** The values in slots 1, 2, ... */
  ghost function Vals<V>(b: seq<Node?<V>>): (s: seq<V>)
    requires Full(b)
    reads (set x | x in b)`v
    ensures |s| == |b| - 1 && forall k :: 1 <= k < |b| ==> At(s, k) == b[k].v
  {
    if |b| == 1 then [] else Vals(b[..|b| - 1]) + [b[|b| - 1].v]
  }

  lemma ValsSwapped<V>(b: seq<Node?<V>>, i: nat, j: nat, r: seq<Node?<V>>)
    requires Full(b) && 1 <= i < |b| && 1 <= j < |b| && r == b[i := b[j]][j := b[i]]
    ensures Full(r) && multiset(r) == multiset(b) && Vals(r) == Swapped(Vals(b), i, j)
    ensures forall x :: x in r <==> x in b
  {
    hide Vals, Swapped, At;
    SameMembers(r, b);
    var s, t := Vals(r), Swapped(Vals(b), i, j);
    forall k | 1 <= k <= |s| ensures At(s, k) == At(t, k) {
      SwappedAt(Vals(b), i, j, k);
    }
    SameValues(s, t);
  }

  lemma SameMembers<T>(a: seq<T>, b: seq<T>)
    requires multiset(a) == multiset(b)
    ensures forall x :: x in a <==> x in b
  {
    forall x ensures x in a <==> x in b {
      assert x in a <==> x in multiset(a);
      assert x in b <==> x in multiset(b);
    }
  }

  lemma SameValues<V>(s: seq<V>, t: seq<V>)
    requires |s| == |t| && forall k :: 1 <= k <= |s| ==> At(s, k) == At(t, k)
    ensures s == t
  {
    forall k | 0 <= k < |s| ensures s[k] == t[k] {
      assert s[k] == At(s, k + 1);
    }
  }

  class Heap<V(!new)> {
    const cmp: Compare<V>
    var b: seq<Node?<V>>
    /** The nodes in the slots. */
    ghost var nodes: set<Node<V>>

    ghost predicate Shape()
      reads this, nodes`i
    {
      && Full(b) && (forall k :: 1 <= k < |b| ==> b[k] in nodes && b[k].i == k)
      && (forall x :: x in nodes ==> x in b)
    }

    ghost predicate Valid()
      reads this, nodes
    {
      Shape() && IsOrder(cmp) && HeapFrom(cmp, Vals(b), 1)
    }

    method SetNode(i: nat, e: Node<V>)
      requires 1 <= i < |b|
      modifies this`b, e`i
      ensures b == old(b)[i := e] && e.i == i
    {
      e.i := i;
      b := b[i := e];
    }

    method Swap(i: nat, j: nat)
      requires Shape() && 1 <= i < |b| && 1 <= j < |b|
      modifies this`b, nodes`i
      ensures Shape() && b == old(b[i := b[j]][j := b[i]]) && multiset(b) == old(multiset(b))
      ensures Vals(b) == Swapped(old(Vals(b)), i, j)
    {
      hide Vals, Swapped;
      ValsSwapped(b, i, j, b[i := b[j]][j := b[i]]);
      var tmp := b[i];
      SetNode(i, b[j]);
      SetNode(j, tmp);
    }

    /** The greatest of a node and its children. */
    method Choose(p: nat) returns (i: nat)
      requires Full(b) && IsOrder(cmp) && 1 <= p < |b|
      ensures Greatest(cmp, Vals(b), p, i)
    {
      hide Vals, At;
      i := p;
      var l, r, end := Left(p), Right(p), |b| - 1;
      if l <= end && cmp(b[i].v, b[l].v) < 0 {
        i := l;
      }
      if r <= end && cmp(b[i].v, b[r].v) < 0 {
        i := r;
      }
    }

    /** Lets the node in slot `start` sink. */
    method Down(start: nat, ghost lo: nat)
      requires Shape() && IsOrder(cmp) && 1 <= lo <= start < |b| && HeapAbove(cmp, Vals(b), lo, start)
      modifies this`b, nodes`i
      ensures Shape() && |b| == old(|b|) && multiset(b) == old(multiset(b)) && HeapFrom(cmp, Vals(b), lo)
    {
      hide HeapFrom, HeapAbove, IsOrder, Swapped, Vals, At;
      var i := start;
      while true
        invariant Shape() && lo <= i < |b| && HeapAbove(cmp, Vals(b), lo, i)
        invariant |b| == old(|b|) && multiset(b) == old(multiset(b))
        decreases |b| - i
      {
        var p := i;
        i := Choose(p);
        if p == i {
          DownDone(cmp, Vals(b), lo, p);
          break;
        }
        DownSwap(cmp, Vals(b), lo, p, i);
        Swap(p, i);
      }
    }

    /** Lets the node in slot `start` rise. */
    method Up(start: nat)
      requires Shape() && IsOrder(cmp) && 1 <= start < |b| && HeapBelow(cmp, Vals(b), start)
      modifies this`b, nodes`i
      ensures Shape() && |b| == old(|b|) && multiset(b) == old(multiset(b)) && HeapFrom(cmp, Vals(b), 1)
    {
      hide HeapFrom, HeapBelow, IsOrder, Swapped, Vals, At;
      var i := start;
      while 0 < Parent(i)
        invariant Shape() && 1 <= i < |b| && HeapBelow(cmp, Vals(b), i)
        invariant |b| == old(|b|) && multiset(b) == old(multiset(b))
      {
        var p := Parent(i);
        if cmp(b[i].v, b[p].v) <= 0 {
          break;
        }
        UpSwap(cmp, Vals(b), i);
        Swap(i, p);
        i := p;
      }
      UpDone(cmp, Vals(b), i);
    }

    /** An empty heap: the slot 0 alone. */
    constructor (cmp: Compare<V>)
      requires IsOrder(cmp)
      ensures Valid() && b == [null] && this.cmp == cmp
    {
      this.cmp := cmp;
      b := [null];
      nodes := {};
    }

    /** Puts a node into a slot behind the last. */
    method AddNode(e: Node<V>)
      requires Shape() && e !in b
      modifies this, e`i
      ensures Shape() && b == old(b) + [e] && nodes == old(nodes) + {e}
    {
      b := b + [e];
      e.i := |b| - 1;
      nodes := nodes + {e};
    }

    /** Builds a heap bottom-up. */
    constructor Create2(arr: seq<Node<V>>, cmp: Compare<V>)
      requires IsOrder(cmp) && Distinct(arr)
      modifies (set x | x in arr)`i
      ensures Valid() && this.cmp == cmp && multiset(b) == multiset([null] + arr)
      ensures nodes == set x | x in arr
    {
      this.cmp := cmp;
      b := [null];
      nodes := {};
      new;
      hide HeapFrom, HeapAbove, IsOrder, Vals;
      var k := 0;
      while k < |arr|
        invariant 0 <= k <= |arr| && Shape() && b == [null] + arr[..k] && nodes == (set x | x in arr[..k])
      {
        assert arr[..k + 1] == arr[..k] + [arr[k]];
        AddNode(arr[k]);
        k := k + 1;
      }
      assert arr[..k] == arr;
      BottomIsHeap(cmp, Vals(b), |b| / 2 + 1);
      var i := |b| / 2;
      while i > 0
        invariant 0 <= i <= |b| / 2 && |b| == |arr| + 1 && Shape() && HeapFrom(cmp, Vals(b), i + 1)
        invariant multiset(b) == multiset([null] + arr) && nodes == (set x | x in arr)
      {
        OneSubtreeMore(cmp, Vals(b), i);
        Down(i, i);
        i := i - 1;
      }
    }

    /** Adds a node that is not there yet. */
    method Push(e: Node<V>)
      requires Valid() && e !in b
      modifies this, e`i, nodes`i
      ensures Valid() && multiset(b) == old(multiset(b)) + multiset{e}
    {
      hide HeapFrom, HeapBelow, IsOrder, Vals;
      LastAdded(cmp, Vals(b), e.v);
      ValsGrown(b, e);
      nodes := nodes + {e};
      b := b + [e];
      e.i := |b| - 1;
      Up(|b| - 1);
    }

    /** The greatest node. */
    method Peek() returns (e: Node?<V>)
      requires Valid()
      ensures e == null <==> b == [null]
      ensures e != null ==> e in b && forall x :: x in b && x != null ==> cmp(x.v, e.v) <= 0
    {
      if |b| - 1 > 0 {
        RootIsTop(cmp, b);
        return b[1];
      }
      return null;
    }

    /** Drops the last slot. */
    method RemoveLast()
      requires Shape() && |b| > 1
      modifies this`b, this`nodes
      ensures Shape() && |b| == old(|b|) - 1 && nodes == old(nodes) - {old(b[|b| - 1])}
      ensures multiset(b) + multiset{old(b[|b| - 1])} == old(multiset(b)) && old(b[|b| - 1]) !in b
      ensures Vals(b) == old(Vals(b))[..|b| - 1]
    {
      hide Vals;
      ValsShorter(b);
      LastGone(b, b[|b| - 1]);
      nodes := nodes - {b[|b| - 1]};
      b := b[..|b| - 1];
    }

    /** Takes the greatest node out. */
    method Pop() returns (e: Node?<V>)
      requires Valid()
      modifies this, nodes`i
      ensures Valid() && nodes <= old(nodes)
      ensures e == null <==> old(b) == [null]
      ensures e == null ==> b == old(b)
      ensures e != null ==> e in old(b) && e !in b && multiset(b) + multiset{e} == old(multiset(b))
      ensures e != null ==> forall x :: x in old(b) && x != null ==> cmp(x.v, e.v) <= 0
    {
      hide HeapFrom, HeapAbove, IsOrder, Vals, Swapped;
      if |b| - 1 == 0 {
        return null;
      }
      RootIsTop(cmp, b);
      e := b[1];
      if |b| > 2 {
        RootReplaced(cmp, Vals(b));
      }
      Swap(1, |b| - 1);
      RemoveLast();
      ghost var rest := b;
      if 0 < |b| - 1 {
        Down(1, 1);
      } else {
        BottomIsHeap(cmp, Vals(b), 1);
      }
      SameMembers(rest, b);
    }

    /** Puts the node right after its value has changed. */
    method Heapify(e: Node<V>)
      requires Shape() && IsOrder(cmp) && e in b && ChangedAt(cmp, Vals(b), e.i)
      modifies this`b, nodes`i
      ensures Valid() && multiset(b) == old(multiset(b))
    {
      hide HeapFrom, HeapAbove, HeapBelow, IsOrder, Vals, ChangedAt, At;
      var i := e.i;
      var p := Parent(i);
      assert 1 <= i < |b| && b[i] == e;
      if i != 1 && cmp(b[i].v, b[p].v) > 0 {
        ChangedUp(cmp, Vals(b), i);
        Up(i);
      } else {
        ChangedDown(cmp, Vals(b), i);
        Down(i, 1);
      }
    }

    /** Changes the value of a node in place, as callers do before `Heapify`, and mends the heap. */
    method Change(e: Node<V>, v: V)
      requires Valid() && e in b
      modifies this`b, nodes`i, e`v
      ensures Valid() && multiset(b) == old(multiset(b)) && e.v == v
    {
      hide HeapFrom, IsOrder, Vals, ChangedAt, Put, At;
      ghost var was, i := Vals(b), e.i;
      assert 1 <= i < |b| && b[i] == e;
      ReplacedIsChanged(cmp, was, i, v);
      e.v := v;
      PutIs(was, i, v, Vals(b));
      Heapify(e);
    }

    lemma PutIs(s: seq<V>, i: nat, v: V, t: seq<V>)
      requires 1 <= i <= |s| == |t| && forall k :: 1 <= k <= |s| ==> At(t, k) == if k == i then v else At(s, k)
      ensures t == Put(s, i, v)
    {
      hide At;
      forall k | 1 <= k <= |s| ensures At(t, k) == At(Put(s, i, v), k) {
        PutAt(s, i, v, k);
      }
      SameValues(t, Put(s, i, v));
    }

    lemma PutAt(s: seq<V>, i: nat, v: V, k: nat)
      requires 1 <= i <= |s| && 1 <= k <= |s|
      ensures At(Put(s, i, v), k) == if k == i then v else At(s, k)
    {
    }

    /** Takes all nodes out, the greatest first. */
    method PopAll() returns (out: seq<Node<V>>)
      requires Valid()
      modifies this, nodes`i
      ensures Valid() && b == [null] && multiset([null] + out) == old(multiset(b))
      ensures forall j, k :: 0 <= j < k < |out| ==> cmp(out[k].v, out[j].v) <= 0
    {
      hide HeapFrom, IsOrder, Vals;
      out := [];
      while b != [null]
        invariant Valid() && nodes <= old(nodes) && multiset(b) + multiset(out) == old(multiset(b))
        invariant forall j, x :: 0 <= j < |out| && x in b && x != null ==> cmp(x.v, out[j].v) <= 0
        invariant forall j, k :: 0 <= j < k < |out| ==> cmp(out[k].v, out[j].v) <= 0
        decreases |b|
      {
        ghost var was, before := b, out;
        var e := Pop();
        SmallerBag(was, b, e);
        out := out + [e];
        assert multiset(out) == multiset(before) + multiset{e};
      }
    }
  }

  /** One node less: fewer slots, and no new nodes. */
  lemma SmallerBag<T>(was: seq<T>, b: seq<T>, e: T)
    requires multiset(b) + multiset{e} == multiset(was)
    ensures |b| < |was| && forall x :: x in b ==> x in was
  {
    assert |multiset(was)| == |was| && |multiset(b)| == |b|;
    forall x | x in b ensures x in was {
      assert x in multiset(b);
      assert x in multiset(was);
    }
  }

  lemma ValsShorter<V>(b: seq<Node?<V>>)
    requires Full(b) && |b| > 1
    ensures Full(b[..|b| - 1]) && Vals(b[..|b| - 1]) == Vals(b)[..|b| - 2]
  {
  }

  /** The last node leaves. */
  lemma LastGone<V>(b: seq<Node?<V>>, e: Node<V>)
    requires |b| > 1 && b[|b| - 1] == e && forall k :: 0 <= k < |b| - 1 ==> b[k] != e
    ensures e !in b[..|b| - 1] && multiset(b[..|b| - 1]) + multiset{e} == multiset(b)
    ensures forall x :: x in b && x != e ==> x in b[..|b| - 1]
  {
    assert b == b[..|b| - 1] + [e];
  }

  lemma RootIsTop<V(!new)>(cmp: Compare<V>, b: seq<Node?<V>>)
    requires IsOrder(cmp) && Full(b) && HeapFrom(cmp, Vals(b), 1) && |b| > 1
    ensures forall x :: x in b && x != null ==> cmp(x.v, b[1].v) <= 0
  {
    hide Vals, IsOrder, HeapFrom, At;
    forall k | 1 <= k < |b| ensures cmp(b[k].v, b[1].v) <= 0 {
      RootIsGreatest(cmp, Vals(b), k);
    }
  }

  lemma ValsGrown<V>(b: seq<Node?<V>>, e: Node<V>)
    requires Full(b)
    ensures Full(b + [e]) && Vals(b + [e]) == Vals(b) + [e.v]
  {
    assert (b + [e])[..|b|] == b;
  }
}
