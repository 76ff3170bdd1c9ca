/** The hash that resizes itself. */
module Hash {
  import opened Basics
  import opened HashTable
  import HL = HashL

  class Hash<K(!new), V> {
    const hl: HL.HashL<K, V>

    ghost predicate Valid()
      reads this, hl
    {
      hl.Valid() && hl.sz <= 2 * Pow2(hl.mapbits) + 1
    }

    /** The map that the hash stands for. */
    ghost function Dict(): map<K, V>
      reads this, hl
    {
      hl.dict
    }

    ghost predicate Has(key: K)
      reads this, hl
    {
      Known(hl.keq, hl.dict, key)
    }

    /** The key under which the map has it. */
    ghost function StoredKey(key: K): K
      requires Has(key)
      reads this, hl
    {
      KnownAs(hl.keq, hl.dict, key)
    }

    lemma BitsInRange()
      requires Valid()
      ensures hl.mapbits <= HL.USABLE_HBITS
    {
    }

    /** A key of the map is known as itself, and as nothing else. */
    lemma OwnKey(key: K)
      requires Valid() && key in Dict()
      ensures Has(key) && StoredKey(key) == key
    {
      HeldKeysApart(hl.h, hl.keq, hl.mapbits, hl.table, hl.dict);
      hide Holds, Pow2;
      assert hl.keq(key, key);
      KnownOnce(hl.h, hl.keq, hl.dict, key, key);
    }

    constructor (h: HFunc<K>, keq: KeyEq<K>)
      requires Consistent(h, keq)
      ensures Valid() && Dict() == map[] && fresh(hl) && hl.h == h && hl.keq == keq
      ensures hl.mapbits == HL.MIN_HBITS
    {
      hl := new HL.HashL(h, keq, HL.MIN_HBITS);
    }

    /** The number of buckets doubled, in 32 bits. */
    function TwiceMapSize(): U32
      reads hl
    {
      MapSize(hl.mapbits) * 2 % TWO_TO_THE_32
    }

    /** With 31 bits the doubled number of buckets wraps around to zero, and the next node makes the table grow. */
    ghost predicate GrowsTooFar()
      reads hl
    {
      hl.mapbits == HL.USABLE_HBITS && hl.sz > 0
    }

    lemma TwiceMapSizeIs()
      requires hl.mapbits <= HL.USABLE_HBITS
      ensures TwiceMapSize() == if hl.mapbits == HL.USABLE_HBITS then 0 else 2 * Pow2(hl.mapbits)
    {
      Doubled(hl.mapbits);
      MapSizeFits(hl.mapbits);
      MapSizeFits(hl.mapbits + 1);
      TwiceWraps(Pow2(hl.mapbits));
    }

    lemma TwiceWraps(x: nat)
      requires x <= TWO_TO_THE_32 / 2
      ensures x * 2 % TWO_TO_THE_32 == if x == TWO_TO_THE_32 / 2 then 0 else 2 * x
    {
    }

    /**
     * Sets the value of a key; 0 says that it replaced one, 1 that the key is new.  The result -EFAULT
     * stands for a node that went astray in a table grown too far.
     */
    method Set(key: K, v: V) returns (r: int, oldv: Option<V>)
      requires Valid()
      modifies hl
      ensures Valid() <==> !old(GrowsTooFar())
      ensures r == -EFAULT <==> old(GrowsTooFar())
      ensures r != -EFAULT ==> r == if old(Has(key)) then 0 else 1
      ensures r != -EFAULT ==> Dict() == old(Dict())[if old(Has(key)) then old(StoredKey(key)) else key := v]
      ensures r != -EFAULT ==> oldv == if old(Has(key)) then Some(old(Dict()[StoredKey(key)])) else None
      ensures r != -EFAULT ==>
        hl.mapbits == old(hl.mapbits) + if old(hl.sz) > 2 * Pow2(old(hl.mapbits)) then 1 else 0
    {
      hide Pow2, Consistent, Holds, Known, MapSize;
      TwiceMapSizeIs();
      if hl.sz > TwiceMapSize() {
        var moved := hl.HRemap(hl.mapbits + 1);
        if moved == -EFAULT {
          return -EFAULT, None;
        }
        Doubled(hl.mapbits);
      }
      oldv := hl.Set(key, v);
      return if oldv.Some? then 0 else 1, oldv;
    }

    lemma Doubled(bits: nat)
      ensures Pow2(bits + 1) == 2 * Pow2(bits)
      ensures bits > 0 ==> Pow2(bits) == 2 * Pow2(bits - 1)
    {
    }

    /** Removes a key; says whether it was there, and hands its key and value back. */
    method Remove2(key: K) returns (r: int, was: Option<Entry<K, V>>)
      requires Valid()
      modifies hl
      ensures Valid() && hl.sz == old(hl.sz) - r
      ensures hl.mapbits == old(hl.mapbits) -
        if r == 1 && old(hl.mapbits) > HL.MIN_HBITS && hl.sz < Pow2(old(hl.mapbits)) / 2 then 1 else 0
      ensures r == if old(Has(key)) then 1 else 0
      ensures r == 0 ==> was == None && Dict() == old(Dict())
      ensures r == 1 ==>
        was.Some? && was.value.key == old(StoredKey(key)) && was.value.value == old(Dict()[StoredKey(key)])
      ensures r == 1 ==> Dict() == old(Dict()) - {old(StoredKey(key))}
    {
      hide Pow2, Consistent, Holds, Known;
      was := hl.Remove(key);
      if was == None {
        return 0, None;
      }
      MapSizeFits(hl.mapbits);
      if hl.sz < MapSize(hl.mapbits) / 2 {
        Doubled(hl.mapbits);
        var moved := hl.HRemap(hl.mapbits - 1);
      }
      return 1, was;
    }

    method Get(key: K) returns (r: int, value: Option<V>)
      requires Valid()
      ensures if Has(key) then r == 0 && value == Some(Dict()[StoredKey(key)]) else r == -ENOENT && value == None
    {
      hide Pow2, Consistent, Holds, Known;
      value := hl.Get(key);
      return if value.Some? then 0 else -ENOENT, value;
    }

    /** Lists keys, each once, up to the size of the buffer. */
    method Keys(bufsz: nat) returns (keys: seq<K>)
      requires Valid()
      ensures Distinct(keys)
      ensures forall x :: 0 <= x < |keys| ==> keys[x] in Dict()
      ensures |keys| == if bufsz < |Dict()| then bufsz else |Dict()|
    {
      hide Pow2, Consistent, Slot;
      keys := [];
      var i := 0;
      var table: Table<K, V> := hl.table;
      NothingListed(table);
      while i < |table| && |keys| < bufsz
        invariant 0 <= i <= |table| && |keys| <= bufsz
        invariant |keys| < bufsz ==> ListsSeen(table, i, 0, keys)
        invariant DistinctIn(keys, hl.dict)
      {
        var j := 0;
        while j < |table[i]| && |keys| < bufsz
          invariant 0 <= j <= |table[i]| && |keys| <= bufsz
          invariant |keys| < bufsz || j < |table[i]| ==> ListsSeen(table, i, j, keys)
          invariant DistinctIn(keys, hl.dict)
        {
          OneMoreListed(hl.h, hl.keq, hl.mapbits, table, hl.dict, i, j, keys);
          keys := keys + [table[i][j].key];
          j := j + 1;
        }
        NextRowListed(table, i, keys);
        i := i + 1;
      }
      Counted(hl.h, hl.keq, hl.mapbits, table, hl.dict, keys, bufsz);
    }
  }

  // ----- a table grown too far

  lemma {:induction false} Pow2Grows(a: nat, b: nat)
    requires a <= b
    ensures Pow2(a) <= Pow2(b)
  {
    if a < b {
      Pow2Grows(a, b - 1);
    }
  }

  lemma Pow2Of30()
    ensures 2 * Pow2(30) == TWO_TO_THE_32 / 2 && 2 * Pow2(29) == TWO_TO_THE_32 / 4
  {
    Pow2Of32();
    hide *;
    Pow2Step(31);
    Pow2Step(30);
    Pow2Step(29);
  }

  lemma Pow2Step(n: nat)
    ensures Pow2(n + 1) == 2 * Pow2(n)
  {
  }

  /** The keys 0, 1, ... */
  ghost predicate KeysBelow(dict: map<int, int>, n: nat) {
    |dict| == n && forall k :: k in dict ==> 0 <= k < n
  }

  lemma SizeOfMore<K, V>(dict: map<K, V>, k: K, v: V)
    requires k !in dict
    ensures |dict[k := v]| == |dict| + 1
  {
    assert dict[k := v].Keys == dict.Keys + {k};
  }

  lemma OneKeyMore(dict: map<int, int>, n: nat)
    requires KeysBelow(dict, n)
    ensures !Known(SameInt, dict, n) && KeysBelow(dict[n := n], n + 1)
  {
    SizeOfMore(dict, n, n);
  }

  /** With that many nodes the table has 30 bits, unless it has 31. */
  lemma BitsOf(bits: nat, n: nat)
    requires n == TWO_TO_THE_32 / 2 + 1 && n <= 2 * Pow2(bits) + 1
    ensures bits >= 30
  {
    Pow2Of30();
    hide Pow2;
    if bits <= 29 {
      Pow2Grows(bits, 29);
    }
  }

  lemma IntsConsistent()
    ensures Consistent(TopBits, SameInt)
  {
  }

  /** So many nodes, one for each of the keys 0, 1, ..., that the next one makes the table grow to 31 bits. */
  method FillTo31() returns (h: Hash<int, int>)
    ensures fresh(h) && fresh(h.hl) && h.Valid() && h.hl.mapbits == 30 && h.hl.keq == SameInt
    ensures KeysBelow(h.Dict(), TWO_TO_THE_32 / 2 + 1)
  {
    hide Pow2, HL.HashL.Valid, KeysBelow, Known;
    h := new Hash(TopBits, SameInt);
    Pow2Of30();
    NoKeys(h.Dict());
    var n := 0;
    while n <= TWO_TO_THE_32 / 2
      invariant 0 <= n <= TWO_TO_THE_32 / 2 + 1 && h.Valid() && h.hl.mapbits <= 30 && h.hl.keq == SameInt
      invariant KeysBelow(h.Dict(), n)
    {
      OneKeyMore(h.Dict(), n);
      SizeIs(h, n);
      var r, oldv := h.Set(n, n);
      n := n + 1;
    }
    SizeIs(h, n);
    BitsOf(h.hl.mapbits, n);
  }

  function TopBits(k: int): U32 {
    k % TWO_TO_THE_32
  }

  predicate SameInt(a: int, b: int) {
    a == b
  }

  lemma NoKeys(dict: map<int, int>)
    requires dict == map[]
    ensures KeysBelow(dict, 0)
  {
  }

  lemma SizeIs(h: Hash<int, int>, n: nat)
    requires h.Valid() && KeysBelow(h.Dict(), n)
    ensures h.hl.sz == n
  {
  }

  /** Two nodes more, and one has gone astray. */
  method GrowTooFar() returns (h: Hash<int, int>, r: int)
    ensures fresh(h) && r == -EFAULT && !h.Valid()
  {
    hide Pow2, HL.HashL.Valid, KeysBelow, Known;
    h := FillTo31();
    Pow2Of30();
    var n := TWO_TO_THE_32 / 2 + 1;
    SizeIs(h, n);
    OneKeyMore(h.Dict(), n);
    var oldv;
    r, oldv := h.Set(n, n);
    SizeIs(h, n + 1);
    r, oldv := h.Set(n + 1, n + 1);
  }

  ghost predicate ListsSeen<K(!new), V>(table: Table<K, V>, i: nat, j: nat, keys: seq<K>) {
    forall key :: key in keys <==> Seen(table, i, j, key)
  }

  ghost predicate DistinctIn<K, V>(keys: seq<K>, dict: map<K, V>) {
    Distinct(keys) && (forall x :: 0 <= x < |keys| ==> keys[x] in dict)
  }

  lemma NothingListed<K(!new), V>(table: Table<K, V>)
    ensures ListsSeen(table, 0, 0, [])
  {
  }

  lemma OneMoreListed<K(!new), V>(h: HFunc<K>, keq: KeyEq<K>, bits: nat, table: Table<K, V>, dict: map<K, V>,
                                  i: nat, j: nat, keys: seq<K>)
    requires Consistent(h, keq) && Holds(h, keq, bits, table, dict) && i < |table| && j < |table[i]|
    requires ListsSeen(table, i, j, keys) && DistinctIn(keys, dict)
    ensures ListsSeen(table, i, j + 1, keys + [table[i][j].key]) && DistinctIn(keys + [table[i][j].key], dict)
  {
    var key := table[i][j].key;
    NotSeenYet(h, keq, bits, table, dict, i, j);
    assert BucketOk(h, keq, bits, dict, i, table[i]) && Placed(h, bits, dict, i, table[i][j]);
    hide Seen, Consistent, Holds, Slot, Pow2;
    forall k ensures k in keys + [key] <==> Seen(table, i, j + 1, k) {
      SeenOneMore(table, i, j, k);
    }
    assert key !in keys;
  }

  lemma NextRowListed<K(!new), V>(table: Table<K, V>, i: nat, keys: seq<K>)
    requires i < |table|
    ensures ListsSeen(table, i, |table[i]|, keys) ==> ListsSeen(table, i + 1, 0, keys)
  {
    hide Seen;
    forall k ensures Seen(table, i, |table[i]|, k) <==> Seen(table, i + 1, 0, k) {
      SeenNextRow(table, i, k);
    }
  }

  lemma {:induction false} DistinctCount<K>(keys: seq<K>)
    requires Distinct(keys)
    ensures |set k | k in keys| == |keys|
  {
    if keys != [] {
      var init, last := keys[..|keys| - 1], keys[|keys| - 1];
      DistinctCount(init);
      assert last !in init;
      assert (set k | k in keys) == (set k | k in init) + {last};
    }
  }

  lemma SubsetCount<K>(a: set<K>, b: set<K>)
    requires a <= b
    ensures |a| <= |b|
    ensures |a| == |b| ==> a == b
  {
    assert |b| == |a| + |b - a| by {
      assert b == a + (b - a);
    }
  }

  lemma Counted<K(!new), V>(h: HFunc<K>, keq: KeyEq<K>, bits: nat, table: Table<K, V>, dict: map<K, V>,
                            keys: seq<K>, bufsz: nat)
    requires Holds(h, keq, bits, table, dict) && DistinctIn(keys, dict) && |keys| <= bufsz
    requires |keys| < bufsz ==> ListsSeen(table, |table|, 0, keys)
    ensures |keys| == if bufsz < |dict| then bufsz else |dict|
  {
    hide Slot, Pow2;
    DistinctCount(keys);
    var listed := set k | k in keys;
    SubsetCount(listed, dict.Keys);
    if |keys| < bufsz {
      forall k | k in dict ensures k in listed {
        assert Covers(h, bits, table, k);
        SlotInRange(bits, h(k));
        var b :| 0 <= b < |table[Slot(bits, h(k))]| && table[Slot(bits, h(k))][b].key == k;
        assert Seen(table, |table|, 0, k);
      }
      assert listed == dict.Keys;
    }
  }
}
