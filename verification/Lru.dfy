/** The cache that evicts what was put longest ago. */
module Lru {
  import opened Basics
  import opened HashTable
  import H = Hash
  import HL = HashL

  datatype LNode<K, D> = LNode(key: K, data: D)

  type List<K, D> = seq<LNode<K, D>>

  type DSize<!D> = D -> U32

  /** Addition of 32-bit words. */
  function Add32(a: U32, b: U32): U32 {
    (a + b) % TWO_TO_THE_32
  }

  /** The sum of the data sizes. */
  function Sum<K, D>(dsize: DSize<D>, list: List<K, D>): nat {
    if list == [] then 0 else Sum(dsize, list[..|list| - 1]) + dsize(list[|list| - 1].data)
  }

  /** The list and the hash hold the same nodes, each once. */
  ghost predicate Aligned<K, D>(list: List<K, D>, dict: map<K, LNode<K, D>>) {
    && (forall i :: 0 <= i < |list| ==> list[i].key in dict && dict[list[i].key] == list[i])
    && (forall i, j :: 0 <= i < j < |list| ==> list[i].key != list[j].key)
    && (forall k :: k in dict ==> InList(list, k))
  }

  ghost predicate InList<K, D>(list: List<K, D>, k: K) {
    exists i :: 0 <= i < |list| && list[i].key == k
  }

  /** What is kept: the longest front part of the list that leaves room for `dsz` more. */
  ghost predicate Kept<K, D>(dsize: DSize<D>, list: List<K, D>, k: nat, dsz: nat, maxsz: nat) {
    && k <= |list| && Sum(dsize, list[..k]) + dsz <= maxsz
    && forall j :: k < j <= |list| ==> Sum(dsize, list[..j]) + dsz > maxsz
  }

  lemma AlignedInit<K, D>(list: List<K, D>, dict: map<K, LNode<K, D>>)
    requires Aligned(list, dict) && list != []
    ensures Aligned(list[..|list| - 1], dict - {list[|list| - 1].key})
  {
    var last := |list| - 1;
    AlignedWithout(list, dict, last);
    assert list[..last] == list[..last] + list[last + 1..];
  }

  lemma AlignedWithout<K, D>(list: List<K, D>, dict: map<K, LNode<K, D>>, n: nat)
    requires Aligned(list, dict) && n < |list|
    ensures Aligned(list[..n] + list[n + 1..], dict - {list[n].key})
  {
    hide InList;
    var rest, d := list[..n] + list[n + 1..], dict - {list[n].key};
    forall k | k in d ensures InList(rest, k) {
      StillInList(list, n, k);
    }
    forall i | 0 <= i < |rest| ensures rest[i].key in d && d[rest[i].key] == rest[i] {
      var j := if i < n then i else i + 1;
      assert rest[i] == list[j];
      assert j < n ==> list[j].key != list[n].key;
      assert n < j ==> list[n].key != list[j].key;
    }
  }

  lemma StillInList<K, D>(list: List<K, D>, n: nat, k: K)
    requires InList(list, k) && n < |list| && list[n].key != k
    ensures InList(list[..n] + list[n + 1..], k)
  {
    var i :| 0 <= i < |list| && list[i].key == k;
    assert (list[..n] + list[n + 1..])[if i < n then i else i - 1].key == k;
  }

  lemma AlignedFront<K, D>(list: List<K, D>, dict: map<K, LNode<K, D>>, n: LNode<K, D>)
    requires Aligned(list, dict) && n.key !in dict
    ensures Aligned([n] + list, dict[n.key := n])
  {
    var l, d := [n] + list, dict[n.key := n];
    forall k | k in d ensures InList(l, k) {
      if k == n.key {
        assert l[0].key == k;
      } else {
        var i :| 0 <= i < |list| && list[i].key == k;
        assert l[i + 1].key == k;
      }
    }
  }

  lemma {:induction false} SumFront<K, D>(dsize: DSize<D>, n: LNode<K, D>, list: List<K, D>)
    ensures Sum(dsize, [n] + list) == dsize(n.data) + Sum(dsize, list)
  {
    if list == [] {
      assert [n] + list == [n] && [n][..0] == [];
    } else {
      var init := list[..|list| - 1];
      assert ([n] + list)[..|list|] == [n] + init;
      SumFront(dsize, n, init);
    }
  }

  lemma {:induction false} SumWithout<K, D>(dsize: DSize<D>, list: List<K, D>, n: nat)
    requires n < |list|
    ensures Sum(dsize, list) == Sum(dsize, list[..n] + list[n + 1..]) + dsize(list[n].data)
  {
    if n == |list| - 1 {
      assert list[..n] + list[n + 1..] == list[..|list| - 1];
    } else {
      var init, rest := list[..|list| - 1], list[..n] + list[n + 1..];
      SumWithout(dsize, init, n);
      assert rest[..|rest| - 1] == init[..n] + init[n + 1..];
    }
  }

  lemma InRest<K, D>(list: List<K, D>, key: K)
    requires InList(list, key) && list[0].key != key
    ensures InList(list[1..], key)
  {
    var i :| 0 <= i < |list| && list[i].key == key;
    assert list[1..][i - 1].key == key;
  }

  /** The place of the node in the list. */
  function IndexOf<K(==), D>(list: List<K, D>, key: K): (i: nat)
    requires InList(list, key)
    ensures i < |list| && list[i].key == key
  {
    if list[0].key == key then 0 else
      InRest(list, key);
      IndexOf(list[1..], key) + 1
  }

  class Lru<K(!new, ==), D> {
    const h: H.Hash<K, LNode<K, D>>
    /** The newest node first. */
    var list: List<K, D>
    var sz: U32
    const maxsz: U32
    const dsize: DSize<D>
    const dcreate: Option<K -> D>

    ghost predicate Shape()
      reads this, h, h.hl
    {
      h.Valid() && Aligned(list, h.Dict())
    }

    ghost predicate Valid()
      reads this, h, h.hl
    {
      Shape() && sz == Sum(dsize, list) <= maxsz
    }

    constructor (hf: HFunc<K>, keq: KeyEq<K>, maxsz: U32, dcreate: Option<K -> D>, dsize: DSize<D>)
      requires Consistent(hf, keq)
      ensures Valid() && list == [] && fresh(h) && fresh(h.hl)
      ensures this.maxsz == if maxsz == 0 then TWO_TO_THE_32 - 1 else maxsz
      ensures h.hl.mapbits == HL.MIN_HBITS && h.hl.h == hf && h.hl.keq == keq
      ensures this.dsize == dsize && this.dcreate == dcreate
    {
      h := new H.Hash(hf, keq);
      list, sz := [], 0;
      this.maxsz := if maxsz == 0 then TWO_TO_THE_32 - 1 else maxsz;
      this.dsize, this.dcreate := dsize, dcreate;
    }

    /** Drops the oldest node. */
    method Evict()
      requires Valid() && list != []
      modifies this, h.hl
      ensures Valid() && list == old(list[..|list| - 1]) && sz <= old(sz)
      ensures h.Dict() == old(h.Dict()) - {old(list[|list| - 1].key)} && h.hl.mapbits <= old(h.hl.mapbits)
    {
      hide Sum, Known, Holds, Consistent, Pow2, Aligned;
      var n := list[|list| - 1];
      AlignedInit(list, h.Dict());
      LastInDict(list, h.Dict());
      h.OwnKey(n.key);
      SumLast(dsize, list);
      list := list[..|list| - 1];
      sz := sz - dsize(n.data);
      var r, was := h.Remove2(n.key);
    }

    lemma LastInDict(l: List<K, D>, dict: map<K, LNode<K, D>>)
      requires Aligned(l, dict) && l != []
      ensures l[|l| - 1].key in dict
    {
    }

    lemma SumLast(dsize: DSize<D>, l: List<K, D>)
      requires l != []
      ensures Sum(dsize, l) == Sum(dsize, l[..|l| - 1]) + dsize(l[|l| - 1].data)
    {
    }

    /** Evicts from the old end until there is room. */
    method MakeRoom(dsz: U32) returns (ghost k: nat)
      requires Valid() && dsz <= maxsz
      modifies this, h.hl
      ensures Valid() && k <= |old(list)| && list == old(list[..k])
      ensures h.Dict().Keys <= old(h.Dict().Keys) && h.hl.mapbits <= old(h.hl.mapbits)
      ensures old(sz) + dsz < TWO_TO_THE_32 ==> Kept(dsize, old(list), k, dsz, maxsz)
      ensures old(sz) + dsz >= TWO_TO_THE_32 ==> k == |old(list)| && sz == old(sz)
    {
      hide Sum, Known, Holds, Consistent, Pow2, Aligned, H.Hash.Valid;
      k := |list|;
      ghost var all := list;
      assert all[..k] == all;
      while list != [] && Add32(sz, dsz) > maxsz
        invariant Valid() && k <= |all| && list == all[..k] && sz <= old(sz)
        invariant h.Dict().Keys <= old(h.Dict().Keys) && h.hl.mapbits <= old(h.hl.mapbits)
        invariant k < |all| ==> old(sz) + dsz < TWO_TO_THE_32
        invariant forall j :: k < j <= |all| ==> Sum(dsize, all[..j]) + dsz > maxsz
        decreases |list|
      {
        Evict();
        k := k - 1;
        assert all[..k + 1][..k] == all[..k];
      }
      if list == [] {
        SumOfNone(dsize, list);
      }
    }

    lemma SumOfNone(dsize: DSize<D>, l: List<K, D>)
      requires l == []
      ensures Sum(dsize, l) == 0
    {
    }

    lemma FewerKnown(keq: KeyEq<K>, was: map<K, LNode<K, D>>, now: map<K, LNode<K, D>>, key: K)
      requires now.Keys <= was.Keys && !Known(keq, was, key)
      ensures !Known(keq, now, key)
    {
    }

    /**
     * Puts data for a key that is not cached, and evicts what has to go.  The result -EFAULT is that of the
     * hash when its table has grown too far.
     */
    method Put(key: K, data: D) returns (r: int)
      requires Valid() && !h.Has(key)
      modifies this, h.hl
      ensures r == -EINVAL <==> dsize(data) > maxsz
      ensures r == -EINVAL ==> Valid() && list == old(list) && h.Dict() == old(h.Dict())
      ensures r == -EFAULT ==> old(h.hl.mapbits) == HL.USABLE_HBITS
      ensures r == 0 || r == -EINVAL || r == -EFAULT
      ensures r == 0 ==> Shape() && (Valid() <==> old(sz) + dsize(data) < TWO_TO_THE_32)
      ensures r == 0 ==> h.hl.mapbits <= old(h.hl.mapbits) + 1
      ensures r == 0 && Valid() ==> exists k: nat ::
        Kept(dsize, old(list), k, dsize(data), maxsz) && list == [LNode(key, data)] + old(list)[..k]
      ensures r == 0 && !Valid() ==> list == [LNode(key, data)] + old(list) && sz == Sum(dsize, list) - TWO_TO_THE_32
    {
      hide Sum, Known, Holds, Consistent, Pow2, Aligned, H.Hash.Valid;
      var dsz := dsize(data);
      if dsz > maxsz {
        return -EINVAL;
      }
      ghost var was := list;
      h.BitsInRange();
      ghost var k := MakeRoom(dsz);
      FewerKnown(h.hl.keq, old(h.Dict()), h.Dict(), key);
      UnknownKey(h, key);
      var n := LNode(key, data);
      AlignedFront(list, h.Dict(), n);
      SumFront(dsize, n, list);
      var x, oldv := h.Set(key, n);
      if x == -EFAULT {
        return -EFAULT;
      }
      list := [n] + list;
      sz := Add32(sz, dsz);
      assert list == [n] + was[..k];
      return 0;
    }

    lemma UnknownKey(h: H.Hash<K, LNode<K, D>>, key: K)
      requires h.Valid() && !h.Has(key)
      ensures key !in h.Dict()
    {
      if key in h.Dict() {
        h.OwnKey(key);
      }
    }

    /** Takes the data of a key out of the cache, or has it made. */
    method Get(key: K) returns (r: int, data: Option<D>)
      requires Valid()
      modifies this, h.hl
      ensures Valid()
      ensures old(h.Has(key)) ==> r == 0 && exists n: nat ::
        n < |old(list)| && old(list)[n].key == old(h.StoredKey(key)) && data == Some(old(list)[n].data)
        && list == old(list)[..n] + old(list)[n + 1..]
      ensures old(!h.Has(key)) ==> list == old(list) && h.Dict() == old(h.Dict())
      ensures old(!h.Has(key)) ==>
        if dcreate.Some? then r == 0 && data == Some(dcreate.value(key)) else r == 1 && data == None
    {
      hide Sum, Known, Holds, Consistent, Pow2, Aligned, H.Hash.Valid;
      ghost var dict := h.Dict();
      var x, was := h.Remove2(key);
      if 0 < x {
        InListOf(list, dict, was.value.key);
        var n := IndexOf(list, was.value.key);
        NodeAt(list, dict, n);
        AlignedWithout(list, dict, n);
        SumWithout(dsize, list, n);
        data := Some(list[n].data);
        sz := sz - dsize(list[n].data);
        list := list[..n] + list[n + 1..];
        return 0, data;
      }
      if dcreate.Some? {
        return 0, Some(dcreate.value(key));
      }
      return 1, None;
    }

    lemma InListOf(l: List<K, D>, dict: map<K, LNode<K, D>>, k: K)
      requires Aligned(l, dict) && k in dict
      ensures InList(l, k)
    {
    }

    lemma NodeAt(l: List<K, D>, dict: map<K, LNode<K, D>>, n: nat)
      requires Aligned(l, dict) && n < |l|
      ensures l[n].key in dict && dict[l[n].key] == l[n]
    {
    }
  }

  lemma NotCached(list: List<int, int>, dict: map<int, LNode<int, int>>, key: int)
    requires Aligned(list, dict) && forall i :: 0 <= i < |list| ==> list[i].key != key
    ensures !Known(H.SameInt, dict, key)
  {
    forall k | k in dict ensures k != key {
      assert InList(list, k);
    }
  }

  lemma SumOfOne(dsize: DSize<int>, n: LNode<int, int>)
    ensures Sum(dsize, [n]) == dsize(n.data)
  {
    assert [n] + [] == [n];
    SumFront(dsize, n, []);
  }

  /** Two entries of half the range of a 32-bit word: their sum wraps around, and nothing is evicted. */
  method WrapAround() returns (c: Lru<int, int>)
    ensures fresh(c) && c.maxsz == TWO_TO_THE_32 - 1 && c.list == [LNode(1, 1), LNode(0, 0)]
    ensures !c.Valid() && c.sz == 0 && Sum(c.dsize, c.list) == TWO_TO_THE_32
  {
    hide Sum, Known, Holds, Consistent, Pow2, Aligned, H.Hash.Valid;
    H.IntsConsistent();
    c := new Lru(H.TopBits, H.SameInt, 0, None, (d: int) => 0x8000_0000);
    c.SumOfNone(c.dsize, c.list);
    NotCached(c.list, c.h.Dict(), 0);
    var r := c.Put(0, 0);
    assert c.list == [LNode(0, 0)];
    SumOfOne(c.dsize, LNode(0, 0));
    NotCached(c.list, c.h.Dict(), 1);
    r := c.Put(1, 1);
    assert c.list == [LNode(1, 1)] + [LNode(0, 0)];
    SumFront(c.dsize, LNode(1, 1), [LNode(0, 0)]);
  }
}
