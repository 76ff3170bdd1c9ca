/** The hash table of chained buckets, changed in place. */
module HashL {
  import opened Basics
  import opened HashTable

  const MIN_HBITS := 4
  const MAX_HBITS := 32

  /** With one bit more the number of buckets does not fit the 32-bit word that holds it. */
  const USABLE_HBITS := 31

  function Clamp(bits: int): (r: nat)
    ensures MIN_HBITS <= r <= MAX_HBITS
    ensures r <= USABLE_HBITS <==> bits <= USABLE_HBITS
  {
    if bits < MIN_HBITS then MIN_HBITS else if bits > MAX_HBITS then MAX_HBITS else bits
  }

  class HashL<K(!new), V> {
    const h: HFunc<K>
    const keq: KeyEq<K>
    var table: Table<K, V>
    var mapbits: nat
    var sz: nat
    /** The map that the table holds. */
    ghost var dict: map<K, V>

    ghost predicate Valid()
      reads this
    {
      && Consistent(h, keq) && MIN_HBITS <= mapbits <= USABLE_HBITS
      && Holds(h, keq, mapbits, table, dict) && sz == |dict|
    }

    /** The code takes up to 32 bits, but the table is of use with up to 31. */
    constructor (h: HFunc<K>, keq: KeyEq<K>, initbits: nat)
      requires Consistent(h, keq) && MIN_HBITS <= initbits <= MAX_HBITS
      ensures Valid() <==> initbits <= USABLE_HBITS
      ensures dict == map[] && mapbits == initbits && this.h == h && this.keq == keq
    {
      hide Pow2, Consistent;
      MapSizeFits(initbits);
      EmptyHolds<K, V>(h, keq, initbits);
      this.h, this.keq := h, keq;
      table, mapbits, sz, dict := EmptyTable(MapSize(initbits)), initbits, 0, map[];
    }

    /** Refuses a number of bits that is out of range. */
    static method Init2(h: HFunc<K>, keq: KeyEq<K>, initbits: int) returns (r: int, hl: HashL?<K, V>)
      requires Consistent(h, keq)
      ensures r == if MIN_HBITS <= initbits <= MAX_HBITS then 0 else -EINVAL
      ensures r == 0 <==> hl != null
      ensures hl != null ==> fresh(hl) && hl.h == h && hl.keq == keq && hl.dict == map[]
      ensures hl != null ==> (hl.Valid() <==> initbits <= USABLE_HBITS)
    {
      if initbits < MIN_HBITS || initbits > MAX_HBITS {
        return -EINVAL, null;
      }
      hl := new HashL(h, keq, initbits);
      return 0, hl;
    }

    /** Part of the old table has been gone through. */
    ghost predicate Rehashed(from: Table<K, V>, d: map<K, V>, i: nat, j: nat, bits: nat, moved: Table<K, V>) {
      if bits <= USABLE_HBITS then Moved(h, keq, from, d, i, j, bits, moved)
      else NoneMet(from, i) && j == 0 && moved == []
    }

    lemma StartRehash(from: Table<K, V>, d: map<K, V>, bits: nat)
      requires bits <= MAX_HBITS
      ensures Rehashed(from, d, 0, 0, bits, EmptyTable(MapSize(bits)))
    {
      hide Pow2;
      MapSizeFits(bits);
      NothingMoved(h, keq, from, d, bits);
    }

    lemma RehashNextRow(from: Table<K, V>, d: map<K, V>, i: nat, bits: nat, moved: Table<K, V>)
      requires i < |from| && Rehashed(from, d, i, |from[i]|, bits, moved)
      ensures Rehashed(from, d, i + 1, 0, bits, moved)
    {
      hide Moved;
      if bits <= USABLE_HBITS {
        MovedNextRow(h, keq, from, d, i, bits, moved);
      }
    }

    /** The next bucket is in the table exactly with up to 31 bits. */
    lemma RehashSlot(from: Table<K, V>, d: map<K, V>, i: nat, j: nat, bits: nat, moved: Table<K, V>, hv32: U32)
      requires bits <= MAX_HBITS && Rehashed(from, d, i, j, bits, moved)
      ensures Slot(bits, hv32) < |moved| <==> bits <= USABLE_HBITS
    {
      hide Pow2, Slot;
      if bits <= USABLE_HBITS {
        MovedSize(h, keq, from, d, i, j, bits, moved);
        SlotInRange(bits, hv32);
      }
    }

    /** Hangs every node of the old table into the new one, unless a bucket lies outside of that. */
    method MoveAll(oldmap: Table<K, V>, newbits: nat, ghost oldbits: nat, ghost d: map<K, V>)
      returns (r: int, moved: Table<K, V>)
      requires Consistent(h, keq) && Holds(h, keq, oldbits, oldmap, d) && newbits <= MAX_HBITS
      ensures newbits <= USABLE_HBITS ==> r == 0 && Holds(h, keq, newbits, moved, d)
      ensures newbits > USABLE_HBITS ==> r == if d == map[] then 0 else -EFAULT
    {
      hide Pow2, Slot, Consistent, Holds, Moved, NoneMet, Rehashed;
      moved := EmptyTable(MapSize(newbits));
      StartRehash(oldmap, d, newbits);
      var i := 0;
      while i < |oldmap|
        invariant 0 <= i <= |oldmap| && Rehashed(oldmap, d, i, 0, newbits, moved)
      {
        var j := 0;
        while j < |oldmap[i]|
          invariant 0 <= j <= |oldmap[i]| && Rehashed(oldmap, d, i, j, newbits, moved)
        {
          var e := oldmap[i][j];
          var s := Slot(newbits, e.hv32);
          RehashSlot(oldmap, d, i, j, newbits, moved, e.hv32);
          if s >= |moved| {
            EntryInMap(h, keq, oldbits, oldmap, d, i);
            return -EFAULT, moved;
          }
          RehashOne(oldmap, d, i, j, oldbits, newbits, moved, s);
          moved := moved[s := moved[s] + [e]];
          j := j + 1;
        }
        RehashNextRow(oldmap, d, i, newbits, moved);
        i := i + 1;
      }
      RehashDone(oldmap, d, oldbits, newbits, moved);
      return 0, moved;
    }

    lemma RehashOne(from: Table<K, V>, d: map<K, V>, i: nat, j: nat, oldbits: nat, bits: nat, moved: Table<K, V>,
                    s: nat)
      requires Consistent(h, keq) && Holds(h, keq, oldbits, from, d) && i < |from| && j < |from[i]|
      requires bits <= USABLE_HBITS && Rehashed(from, d, i, j, bits, moved)
      requires s == Slot(bits, from[i][j].hv32) && s < |moved|
      ensures Rehashed(from, d, i, j + 1, bits, moved[s := moved[s] + [from[i][j]]])
    {
      hide Pow2, Slot, Consistent, Holds, Moved;
      EntryMoved(h, keq, oldbits, from, d, i, j, bits, moved, s, moved[s := moved[s] + [from[i][j]]]);
    }

    lemma RehashDone(from: Table<K, V>, d: map<K, V>, oldbits: nat, bits: nat, moved: Table<K, V>)
      requires Holds(h, keq, oldbits, from, d) && Rehashed(from, d, |from|, 0, bits, moved)
      ensures if bits <= USABLE_HBITS then Holds(h, keq, bits, moved, d) else d == map[]
    {
      hide Pow2, Slot, Holds, Moved, NoneMet;
      if bits <= USABLE_HBITS {
        AllMoved(h, keq, oldbits, from, d, bits, moved);
      } else {
        NoneMetAtAll(h, keq, oldbits, from, d);
      }
    }

    /**
     * Moves all nodes to a table of `2^bits` buckets.  With 32 bits or more the new table has none: the first
     * node goes astray, which the result -EFAULT stands for, and no later operation finds a bucket.
     */
    method HRemap(bits: int) returns (r: int)
      requires Valid()
      modifies this
      ensures Valid() <==> bits <= USABLE_HBITS
      ensures mapbits == Clamp(bits) && dict == old(dict) && sz == old(sz)
      ensures r == if bits <= USABLE_HBITS || old(dict) == map[] then 0 else -EFAULT
    {
      hide Pow2, Slot, Consistent, Holds;
      var newbits := Clamp(bits);
      if mapbits == newbits {
        return 0;
      }
      var moved;
      r, moved := MoveAll(table, newbits, mapbits, dict);
      table, mapbits := moved, newbits;
    }

    /** Where the node for a key is: its bucket, and its place there if there is one. */
    method GetNode(key: K) returns (found: bool, i: nat, j: nat)
      requires Valid()
      ensures i < |table| && i == Slot(mapbits, h(key))
      ensures found ==> j < |table[i]| && table[i][j].key in dict && keq(key, table[i][j].key)
      ensures found ==> table[i][j].value == dict[table[i][j].key]
      ensures found <==> Known(keq, dict, key)
    {
      hide Pow2, Slot;
      var hv32 := h(key);
      SlotInRange(mapbits, hv32);
      i, j := Slot(mapbits, hv32), 0;
      assert BucketOk(h, keq, mapbits, dict, i, table[i]);
      while j < |table[i]|
        invariant 0 <= j <= |table[i]| && forall x :: 0 <= x < j ==> !keq(key, table[i][x].key)
      {
        assert Placed(h, mapbits, dict, i, table[i][j]);
        if table[i][j].hv32 == hv32 && keq(key, table[i][j].key) {
          return true, i, j;
        }
        j := j + 1;
      }
      NotThere(h, keq, mapbits, table, dict, key);
      return false, i, 0;
    }

    method Get(key: K) returns (r: Option<V>)
      requires Valid()
      ensures r == if Known(keq, dict, key) then Some(dict[KnownAs(keq, dict, key)]) else None
    {
      hide Pow2, Slot, Consistent, Holds, KeysApart, Known;
      HeldKeysApart(h, keq, mapbits, table, dict);
      var found, i, j := GetNode(key);
      if !found {
        return None;
      }
      KnownOnce(h, keq, dict, key, table[i][j].key);
      return Some(table[i][j].value);
    }

    /** Replaces the node of the same key, which keeps its key, or adds one in front. */
    method Set(key: K, v: V) returns (was: Option<V>)
      requires Valid()
      modifies this
      ensures Valid() && mapbits == old(mapbits)
      ensures was == if Known(keq, old(dict), key) then Some(old(dict)[KnownAs(keq, old(dict), key)]) else None
      ensures dict == old(dict)[if Known(keq, old(dict), key) then KnownAs(keq, old(dict), key) else key := v]
      ensures sz == old(sz) + if Known(keq, old(dict), key) then 0 else 1
    {
      hide Pow2, Slot, Consistent, Holds, KeysApart, Known;
      HeldKeysApart(h, keq, mapbits, table, dict);
      var found, i, j := GetNode(key);
      if found {
        var n := table[i][j];
        KnownOnce(h, keq, dict, key, n.key);
        var b := table[i][j := n.(value := v)];
        EntryReplaced(h, keq, mapbits, table, dict, i, j, v, b, dict[n.key := v]);
        table, dict := table[i := b], dict[n.key := v];
        return Some(n.value);
      }
      var nnew := Entry(key, h(key), v);
      var b := [nnew] + table[i];
      EntryAdded(h, keq, mapbits, table, dict, nnew, i, b, dict[key := v]);
      table, dict := table[i := b], dict[key := v];
      sz := sz + 1;
      return None;
    }

    method Remove(key: K) returns (was: Option<Entry<K, V>>)
      requires Valid()
      modifies this
      ensures Valid() && mapbits == old(mapbits)
      ensures was.Some? <==> Known(keq, old(dict), key)
      ensures was == None ==> dict == old(dict)
      ensures was.Some? ==> was.value.key == KnownAs(keq, old(dict), key) && was.value.value == old(dict)[was.value.key]
      ensures was.Some? ==> dict == old(dict) - {was.value.key} && sz == old(sz) - 1
    {
      hide Pow2, Slot, Consistent, Holds, KeysApart, Known;
      HeldKeysApart(h, keq, mapbits, table, dict);
      var found, i, j := GetNode(key);
      if !found {
        return None;
      }
      var n := table[i][j];
      KnownOnce(h, keq, dict, key, n.key);
      var b := table[i][..j] + table[i][j + 1..];
      EntryRemoved(h, keq, mapbits, table, dict, i, j, b, dict - {n.key});
      OneKeyLess(dict, n.key);
      table, dict := table[i := b], dict - {n.key};
      sz := sz - 1;
      return Some(n);
    }

    lemma OneKeyLess(d: map<K, V>, k: K)
      requires k in d
      ensures |d - {k}| == |d| - 1
    {
      assert (d - {k}).Keys == d.Keys - {k};
    }
  }

  /** Any table with a node in it breaks when it is remapped to 32 bits. */
  method RemapTo32() returns (hl: HashL<int, int>, r: int)
    ensures r == -EFAULT && !hl.Valid() && fresh(hl)
  {
    hide Holds, Pow2;
    var h: HFunc<int> := k => k % TWO_TO_THE_32;
    var keq: KeyEq<int> := (a, b) => a == b;
    hl := new HashL(h, keq, MIN_HBITS);
    var was := hl.Set(0, 0);
    r := hl.HRemap(MAX_HBITS);
  }
}
