/** A table of buckets, chosen by the top bits of a 32-bit hash value, and the map that it holds. */
module HashTable {

  const TWO_TO_THE_32 := 0x1_0000_0000

  type U32 = x: int | 0 <= x < TWO_TO_THE_32

  function Pow2(n: nat): (r: nat)
    ensures r > 0
  {
    if n == 0 then 1 else 2 * Pow2(n - 1)
  }

  lemma {:induction false} Pow2Adds(a: nat, b: nat)
    ensures Pow2(a) * Pow2(b) == Pow2(a + b)
  {
    if a == 0 {
      OneTimes(Pow2(b));
    } else {
      Pow2Adds(a - 1, b);
      TwiceTimes(Pow2(a - 1), Pow2(b));
    }
  }

  lemma OneTimes(x: nat)
    ensures 1 * x == x
  {
  }

  lemma TwiceTimes(x: nat, y: nat)
    ensures (2 * x) * y == 2 * (x * y)
  {
  }

  lemma Pow2Of32()
    ensures Pow2(32) == TWO_TO_THE_32
  {
    assert Pow2(8) == 256;
    Pow2Adds(8, 8);
    Pow2Adds(16, 16);
  }

  /** The number of buckets, as the 32-bit word that holds it. */
  function MapSize(bits: nat): U32 {
    Pow2(bits) % TWO_TO_THE_32
  }

  /** The word holds it for up to 31 bits; for 32 it is zero. */
  lemma MapSizeFits(bits: nat)
    requires bits <= 32
    ensures bits <= 31 ==> MapSize(bits) == Pow2(bits) <= TWO_TO_THE_32 / 2
    ensures bits == 32 ==> MapSize(bits) == 0
  {
    Pow2Of32();
    if bits <= 31 {
      Pow2Adds(bits, 31 - bits);
      AtLeastOnce(Pow2(bits), Pow2(31 - bits));
    }
  }

  lemma AtLeastOnce(a: nat, b: nat)
    requires b > 0
    ensures a <= a * b
  {
  }

  /** With 32 bits every bucket that a hash value names lies outside the table. */
  lemma NoBucketAt32(hv32: U32)
    ensures Slot(32, hv32) >= MapSize(32)
  {
    MapSizeFits(32);
  }

  /** The top bits of a hash value. */
  function Slot(bits: nat, hv32: U32): nat
    requires bits <= 32
  {
    Div(hv32, Pow2(32 - bits))
  }

  function Div(a: nat, b: nat): nat
    requires b > 0
  {
    a / b
  }

  lemma SlotInRange(bits: nat, hv32: U32)
    requires bits <= 32
    ensures Slot(bits, hv32) < Pow2(bits)
  {
    hide Pow2;
    Pow2Adds(bits, 32 - bits);
    Pow2Of32();
    Quotient(hv32, Pow2(32 - bits), Pow2(bits));
  }

  /** It is the top bits: what is left out is less than one unit of the last bit kept. */
  lemma SlotIsTopBits(bits: nat, hv32: U32)
    requires bits <= 32
    ensures Slot(bits, hv32) * Pow2(32 - bits) <= hv32 < (Slot(bits, hv32) + 1) * Pow2(32 - bits)
  {
    hide Pow2;
    Division(hv32, Pow2(32 - bits));
  }

  lemma Division(a: nat, b: nat)
    requires b > 0
    ensures Div(a, b) * b <= a < (Div(a, b) + 1) * b
  {
    var q := a / b;
    assert a == q * b + a % b;
    assert (q + 1) * b == q * b + b;
  }

  lemma Quotient(a: nat, b: nat, c: nat)
    requires b > 0 && a < c * b
    ensures Div(a, b) < c
  {
    var q := a / b;
    assert q * b <= a;
    assert q >= c ==> (q - c) * b >= 0;
  }

  datatype Entry<K, V> = Entry(key: K, hv32: U32, value: V)

  type Bucket<K, V> = seq<Entry<K, V>>

  type Table<K, V> = seq<Bucket<K, V>>

  type HFunc<!K> = K -> U32

  /** Whether two keys are the same. */
  type KeyEq<!K> = (K, K) -> bool

  /** The comparison is an equivalence, and the hash function respects it. */
  ghost predicate Consistent<K(!new)>(h: HFunc<K>, keq: KeyEq<K>) {
    && (forall a :: keq(a, a))
    && (forall a, b :: keq(a, b) ==> keq(b, a) && h(a) == h(b))
    && (forall a, b, c :: keq(a, b) && keq(b, c) ==> keq(a, c))
  }

  /** An entry belongs to this bucket and to the map. */
  ghost predicate Placed<K, V>(h: HFunc<K>, bits: nat, dict: map<K, V>, i: nat, e: Entry<K, V>)
    requires bits <= 32
  {
    e.hv32 == h(e.key) && Slot(bits, e.hv32) == i && e.key in dict && dict[e.key] == e.value
  }

  ghost predicate BucketOk<K, V>(h: HFunc<K>, keq: KeyEq<K>, bits: nat, dict: map<K, V>, i: nat, b: Bucket<K, V>)
    requires bits <= 32
  {
    && (forall j :: 0 <= j < |b| ==> Placed(h, bits, dict, i, b[j]))
    && (forall j, k :: 0 <= j < k < |b| ==> !keq(b[j].key, b[k].key))
  }

  ghost predicate InBucket<K, V>(b: Bucket<K, V>, key: K) {
    exists j :: 0 <= j < |b| && b[j].key == key
  }

  ghost predicate Covers<K, V>(h: HFunc<K>, bits: nat, table: Table<K, V>, key: K)
    requires bits <= 32 && |table| == Pow2(bits)
  {
    SlotInRange(bits, h(key));
    InBucket(table[Slot(bits, h(key))], key)
  }

  /** The table holds the map: every entry in its bucket, every key of the map in the table, none twice. */
  ghost predicate Holds<K, V>(h: HFunc<K>, keq: KeyEq<K>, bits: nat, table: Table<K, V>, dict: map<K, V>) {
    && bits <= 32 && |table| == Pow2(bits)
    && (forall i :: 0 <= i < |table| ==> BucketOk(h, keq, bits, dict, i, table[i]))
    && (forall key :: key in dict ==> Covers(h, bits, table, key))
  }

  /** No two keys of the map are the same. */
  ghost predicate KeysApart<K, V>(keq: KeyEq<K>, dict: map<K, V>) {
    forall a, b :: a in dict && b in dict && keq(a, b) ==> a == b
  }

  lemma HeldKeysApart<K(!new), V>(h: HFunc<K>, keq: KeyEq<K>, bits: nat, table: Table<K, V>, dict: map<K, V>)
    requires Consistent(h, keq) && Holds(h, keq, bits, table, dict)
    ensures KeysApart(keq, dict)
  {
    hide Slot, Pow2;
    forall a, b | a in dict && b in dict && keq(a, b) ensures a == b {
      assert Covers(h, bits, table, a) && Covers(h, bits, table, b);
      SlotInRange(bits, h(a));
      var i := Slot(bits, h(a));
      assert BucketOk(h, keq, bits, dict, i, table[i]);
      var j :| 0 <= j < |table[i]| && table[i][j].key == a;
      var k :| 0 <= k < |table[i]| && table[i][k].key == b;
    }
  }

  // ----- looking a key up

  /** The key of the map that is the same as this one, if there is one. */
  ghost predicate Known<K, V>(keq: KeyEq<K>, dict: map<K, V>, key: K) {
    exists k :: k in dict && keq(key, k)
  }

  ghost function KnownAs<K, V>(keq: KeyEq<K>, dict: map<K, V>, key: K): (k: K)
    requires Known(keq, dict, key)
    ensures k in dict && keq(key, k)
  {
    var k :| k in dict && keq(key, k);
    k
  }

  lemma KnownOnce<K(!new), V>(h: HFunc<K>, keq: KeyEq<K>, dict: map<K, V>, key: K, k: K)
    requires Consistent(h, keq) && KeysApart(keq, dict) && k in dict && keq(key, k)
    ensures Known(keq, dict, key) && KnownAs(keq, dict, key) == k
  {
    assert keq(k, key);
  }

  /** Not in the bucket where it would be: not in the map. */
  lemma NotThere<K(!new), V>(h: HFunc<K>, keq: KeyEq<K>, bits: nat, table: Table<K, V>, dict: map<K, V>, key: K)
    requires Consistent(h, keq) && Holds(h, keq, bits, table, dict)
    requires Slot(bits, h(key)) < |table|
    requires forall j :: 0 <= j < |table[Slot(bits, h(key))]| ==> !keq(key, table[Slot(bits, h(key))][j].key)
    ensures !Known(keq, dict, key)
  {
    hide Slot, Pow2;
    forall k | k in dict ensures !keq(key, k) {
      assert Covers(h, bits, table, k);
    }
  }

  // ----- changing a bucket

  /** One bucket is changed, and the map for keys of that bucket alone. */
  lemma BucketChanged<K, V>(h: HFunc<K>, keq: KeyEq<K>, bits: nat, table: Table<K, V>, dict: map<K, V>,
                            i: nat, b: Bucket<K, V>, dict2: map<K, V>)
    requires Holds(h, keq, bits, table, dict) && i < |table|
    requires BucketOk(h, keq, bits, dict2, i, b)
    requires forall key :: key in dict2 && Slot(bits, h(key)) == i ==> InBucket(b, key)
    requires forall key :: Slot(bits, h(key)) != i ==> (key in dict <==> key in dict2)
    requires forall key :: Slot(bits, h(key)) != i && key in dict ==> dict2[key] == dict[key]
    ensures Holds(h, keq, bits, table[i := b], dict2)
  {
    hide Slot, Pow2, InBucket;
    var table2 := table[i := b];
    forall x | 0 <= x < |table2| ensures BucketOk(h, keq, bits, dict2, x, table2[x]) {
      if x != i {
        assert BucketOk(h, keq, bits, dict, x, table[x]);
      }
    }
    forall key | key in dict2 ensures Covers(h, bits, table2, key) {
      SlotInRange(bits, h(key));
      if Slot(bits, h(key)) != i {
        assert Covers(h, bits, table, key);
      }
    }
  }

  lemma EntryReplaced<K(!new), V>(h: HFunc<K>, keq: KeyEq<K>, bits: nat, table: Table<K, V>, dict: map<K, V>,
                                  i: nat, j: nat, v: V, b: Bucket<K, V>, dict2: map<K, V>)
    requires Consistent(h, keq) && Holds(h, keq, bits, table, dict) && i < |table| && j < |table[i]|
    requires b == table[i][j := table[i][j].(value := v)] && dict2 == dict[table[i][j].key := v]
    ensures Holds(h, keq, bits, table[i := b], dict2)
  {
    hide Slot, Pow2, InBucket;
    var was := table[i];
    assert BucketOk(h, keq, bits, dict, i, was);
    assert Placed(h, bits, dict, i, was[j]);
    assert BucketOk(h, keq, bits, dict2, i, b) by {
      forall x | 0 <= x < |b| ensures Placed(h, bits, dict2, i, b[x]) {
        assert Placed(h, bits, dict, i, was[x]);
        assert x < j ==> !keq(was[x].key, was[j].key);
        assert j < x ==> !keq(was[j].key, was[x].key);
      }
    }
    forall key | key in dict2 && Slot(bits, h(key)) == i ensures InBucket(b, key) {
      assert Covers(h, bits, table, key);
      SameKeysInBucket(was, j, v, key);
    }
    BucketChanged(h, keq, bits, table, dict, i, b, dict2);
  }

  lemma SameKeysInBucket<K, V>(b: Bucket<K, V>, j: nat, v: V, key: K)
    requires j < |b| && InBucket(b, key)
    ensures InBucket(b[j := b[j].(value := v)], key)
  {
    var x :| 0 <= x < |b| && b[x].key == key;
    assert b[j := b[j].(value := v)][x].key == key;
  }

  lemma EntryAdded<K(!new), V>(h: HFunc<K>, keq: KeyEq<K>, bits: nat, table: Table<K, V>, dict: map<K, V>,
                               e: Entry<K, V>, i: nat, b: Bucket<K, V>, dict2: map<K, V>)
    requires Consistent(h, keq) && Holds(h, keq, bits, table, dict) && !Known(keq, dict, e.key)
    requires e.hv32 == h(e.key) && i == Slot(bits, e.hv32) && i < |table|
    requires b == [e] + table[i] && dict2 == dict[e.key := e.value]
    ensures Holds(h, keq, bits, table[i := b], dict2) && e.key !in dict
  {
    hide Slot, Pow2, InBucket;
    var was := table[i];
    assert BucketOk(h, keq, bits, dict, i, was);
    assert BucketOk(h, keq, bits, dict2, i, b) by {
      forall x | 0 <= x < |b| ensures Placed(h, bits, dict2, i, b[x]) {
        if x > 0 {
          assert Placed(h, bits, dict, i, was[x - 1]);
        }
      }
      forall x, y | 0 <= x < y < |b| ensures !keq(b[x].key, b[y].key) {
        assert Placed(h, bits, dict, i, was[y - 1]);
        if x > 0 {
          assert !keq(was[x - 1].key, was[y - 1].key);
        }
      }
    }
    forall key | key in dict2 && Slot(bits, h(key)) == i ensures InBucket(b, key) {
      if key == e.key {
        FirstInBucket(e, was);
      } else {
        assert Covers(h, bits, table, key);
        StillInBucket(e, was, key);
      }
    }
    BucketChanged(h, keq, bits, table, dict, i, b, dict2);
  }

  lemma FirstInBucket<K, V>(e: Entry<K, V>, b: Bucket<K, V>)
    ensures InBucket([e] + b, e.key)
  {
    assert ([e] + b)[0].key == e.key;
  }

  lemma StillInBucket<K, V>(e: Entry<K, V>, b: Bucket<K, V>, key: K)
    requires InBucket(b, key)
    ensures InBucket([e] + b, key)
  {
    var x :| 0 <= x < |b| && b[x].key == key;
    assert ([e] + b)[x + 1].key == key;
  }

  lemma EntryRemoved<K(!new), V>(h: HFunc<K>, keq: KeyEq<K>, bits: nat, table: Table<K, V>, dict: map<K, V>,
                                 i: nat, j: nat, b: Bucket<K, V>, dict2: map<K, V>)
    requires Consistent(h, keq) && Holds(h, keq, bits, table, dict) && i < |table| && j < |table[i]|
    requires b == table[i][..j] + table[i][j + 1..] && dict2 == dict - {table[i][j].key}
    ensures Holds(h, keq, bits, table[i := b], dict2) && table[i][j].key in dict
  {
    hide Slot, Pow2, InBucket;
    var was := table[i];
    assert BucketOk(h, keq, bits, dict, i, was);
    assert Placed(h, bits, dict, i, was[j]);
    assert BucketOk(h, keq, bits, dict2, i, b) by {
      forall x | 0 <= x < |b| ensures Placed(h, bits, dict2, i, b[x]) {
        var y := if x < j then x else x + 1;
        assert b[x] == was[y] && Placed(h, bits, dict, i, was[y]);
        assert y < j ==> !keq(was[y].key, was[j].key);
        assert j < y ==> !keq(was[j].key, was[y].key);
      }
      forall x, y | 0 <= x < y < |b| ensures !keq(b[x].key, b[y].key) {
        assert !keq(was[if x < j then x else x + 1].key, was[if y < j then y else y + 1].key);
      }
    }
    forall key | key in dict2 && Slot(bits, h(key)) == i ensures InBucket(b, key) {
      assert Covers(h, bits, table, key);
      OtherStillInBucket(was, j, key);
    }
    BucketChanged(h, keq, bits, table, dict, i, b, dict2);
  }

  lemma OtherStillInBucket<K, V>(b: Bucket<K, V>, j: nat, key: K)
    requires j < |b| && InBucket(b, key) && b[j].key != key
    ensures InBucket(b[..j] + b[j + 1..], key)
  {
    var x :| 0 <= x < |b| && b[x].key == key;
    assert (b[..j] + b[j + 1..])[if x < j then x else x - 1].key == key;
  }

  // ----- moving everything to a table of another size

  /** The key is in the first `i` buckets, or among the first `j` entries of the next. */
  ghost predicate Seen<K, V>(table: Table<K, V>, i: nat, j: nat, key: K) {
    exists a, b :: 0 <= a < |table| && 0 <= b < |table[a]| && (a < i || (a == i && b < j)) && table[a][b].key == key
  }

  /** What has been seen of the old table, and only that, is in the new one. */
  ghost predicate Moved<K(!new), V>(h: HFunc<K>, keq: KeyEq<K>, table: Table<K, V>, dict: map<K, V>, i: nat, j: nat,
                              bits: nat, moved: Table<K, V>) {
    && bits <= 32 && |moved| == Pow2(bits)
    && (forall x :: 0 <= x < |moved| ==> BucketOk(h, keq, bits, dict, x, moved[x]))
    && (forall key :: Covers(h, bits, moved, key) <==> Seen(table, i, j, key))
  }

  function EmptyTable<K, V>(n: nat): (r: Table<K, V>)
    ensures |r| == n
  {
    seq(n, _ => [])
  }

  lemma EmptyHolds<K, V>(h: HFunc<K>, keq: KeyEq<K>, bits: nat)
    requires bits <= 32
    ensures Holds<K, V>(h, keq, bits, EmptyTable(Pow2(bits)), map[])
  {
    hide Pow2;
  }

  lemma NothingMoved<K(!new), V>(h: HFunc<K>, keq: KeyEq<K>, table: Table<K, V>, dict: map<K, V>, bits: nat)
    requires bits <= 32
    ensures Moved(h, keq, table, dict, 0, 0, bits, EmptyTable(Pow2(bits)))
  {
    hide Pow2, Slot;
    var moved := EmptyTable<K, V>(Pow2(bits));
    forall key ensures !Covers(h, bits, moved, key) {
      SlotInRange(bits, h(key));
      assert moved[Slot(bits, h(key))] == [];
    }
  }

  lemma NotSeenYet<K(!new), V>(h: HFunc<K>, keq: KeyEq<K>, bits: nat, table: Table<K, V>, dict: map<K, V>,
                               i: nat, j: nat)
    requires Consistent(h, keq) && Holds(h, keq, bits, table, dict) && i < |table| && j < |table[i]|
    ensures !Seen(table, i, j, table[i][j].key)
  {
    hide Slot, Pow2;
    var key := table[i][j].key;
    assert BucketOk(h, keq, bits, dict, i, table[i]) && Placed(h, bits, dict, i, table[i][j]);
    forall a, b | 0 <= a < |table| && 0 <= b < |table[a]| && (a < i || (a == i && b < j))
      ensures table[a][b].key != key
    {
      assert BucketOk(h, keq, bits, dict, a, table[a]) && Placed(h, bits, dict, a, table[a][b]);
      assert keq(key, key);
    }
  }

  lemma SeenOneMore<K, V>(table: Table<K, V>, i: nat, j: nat, key: K)
    requires i < |table| && j < |table[i]|
    ensures Seen(table, i, j + 1, key) <==> Seen(table, i, j, key) || key == table[i][j].key
  {
    if Seen(table, i, j, key) {
      var a, b :| 0 <= a < |table| && 0 <= b < |table[a]| && (a < i || (a == i && b < j)) && table[a][b].key == key;
      assert a < i || (a == i && b < j + 1);
    }
    if key == table[i][j].key {
      assert table[i][j].key == key;
    }
  }

  lemma SeenNextRow<K, V>(table: Table<K, V>, i: nat, key: K)
    requires i < |table|
    ensures Seen(table, i, |table[i]|, key) <==> Seen(table, i + 1, 0, key)
  {
    if Seen(table, i + 1, 0, key) {
      var a, b :|
        0 <= a < |table| && 0 <= b < |table[a]| && (a < i + 1 || (a == i + 1 && b < 0)) && table[a][b].key == key;
      assert a < i || (a == i && b < |table[i]|);
    }
    if Seen(table, i, |table[i]|, key) {
      var a, b :|
        0 <= a < |table| && 0 <= b < |table[a]| && (a < i || (a == i && b < |table[i]|)) && table[a][b].key == key;
      assert a < i + 1;
    }
  }

  lemma MovedSize<K(!new), V>(h: HFunc<K>, keq: KeyEq<K>, table: Table<K, V>, dict: map<K, V>, i: nat, j: nat,
                              bits: nat, moved: Table<K, V>)
    requires Moved(h, keq, table, dict, i, j, bits, moved)
    ensures |moved| == Pow2(bits)
  {
  }

  lemma MovedNextRow<K(!new), V>(h: HFunc<K>, keq: KeyEq<K>, table: Table<K, V>, dict: map<K, V>, i: nat,
                                 bits: nat, moved: Table<K, V>)
    requires i < |table| && Moved(h, keq, table, dict, i, |table[i]|, bits, moved)
    ensures Moved(h, keq, table, dict, i + 1, 0, bits, moved)
  {
    hide Seen, Pow2, Slot, Covers, BucketOk;
    forall key ensures Covers(h, bits, moved, key) <==> Seen(table, i + 1, 0, key) {
      SeenNextRow(table, i, key);
    }
  }

  /** No entry moved before is the same as the next one. */
  lemma NextIsNew<K(!new), V>(h: HFunc<K>, keq: KeyEq<K>, bits0: nat, table: Table<K, V>, dict: map<K, V>,
                              i: nat, j: nat, bits: nat, moved: Table<K, V>, x: nat, y: nat)
    requires Consistent(h, keq) && Holds(h, keq, bits0, table, dict) && i < |table| && j < |table[i]|
    requires Moved(h, keq, table, dict, i, j, bits, moved) && x < |moved| && y < |moved[x]|
    ensures !keq(moved[x][y].key, table[i][j].key)
  {
    HeldKeysApart(h, keq, bits0, table, dict);
    NotSeenYet(h, keq, bits0, table, dict, i, j);
    hide Seen, Pow2, Slot, Consistent, KeysApart;
    var e, m := table[i][j], moved[x][y];
    assert BucketOk(h, keq, bits, dict, x, moved[x]) && Placed(h, bits, dict, x, m);
    assert BucketOk(h, keq, bits0, dict, i, table[i]) && Placed(h, bits0, dict, i, e);
    assert Covers(h, bits, moved, m.key);
    assert m.key != e.key;
    ApartKeys(keq, dict, m.key, e.key);
  }

  lemma ApartKeys<K(!new), V>(keq: KeyEq<K>, dict: map<K, V>, a: K, b: K)
    requires KeysApart(keq, dict) && a in dict && b in dict && a != b
    ensures !keq(a, b)
  {
  }

  lemma EntryMoved<K(!new), V>(h: HFunc<K>, keq: KeyEq<K>, bits0: nat, table: Table<K, V>, dict: map<K, V>,
                               i: nat, j: nat, bits: nat, moved: Table<K, V>, s: nat, moved2: Table<K, V>)
    requires Consistent(h, keq) && Holds(h, keq, bits0, table, dict) && i < |table| && j < |table[i]|
    requires Moved(h, keq, table, dict, i, j, bits, moved)
    requires s == Slot(bits, table[i][j].hv32) && s < |moved| && moved2 == moved[s := moved[s] + [table[i][j]]]
    ensures Moved(h, keq, table, dict, i, j + 1, bits, moved2)
  {
    var e := table[i][j];
    assert BucketOk(h, keq, bits0, dict, i, table[i]) && Placed(h, bits0, dict, i, e);
    forall x | 0 <= x < |moved2| ensures BucketOk(h, keq, bits, dict, x, moved2[x]) {
      assert BucketOk(h, keq, bits, dict, x, moved[x]);
      if x == s {
        BucketExtended(h, keq, bits0, table, dict, i, j, bits, moved, s, moved2[s]);
      }
    }
    hide Seen, Pow2, Slot, Consistent, BucketOk;
    forall key ensures Covers(h, bits, moved2, key) <==> Seen(table, i, j + 1, key) {
      SeenOneMore(table, i, j, key);
      CoversOneMore(h, bits, moved, e, s, moved2, key);
    }
  }

  lemma BucketExtended<K(!new), V>(h: HFunc<K>, keq: KeyEq<K>, bits0: nat, table: Table<K, V>, dict: map<K, V>,
                                   i: nat, j: nat, bits: nat, moved: Table<K, V>, s: nat, b: Bucket<K, V>)
    requires Consistent(h, keq) && Holds(h, keq, bits0, table, dict) && i < |table| && j < |table[i]|
    requires Moved(h, keq, table, dict, i, j, bits, moved)
    requires s == Slot(bits, table[i][j].hv32) && s < |moved| && b == moved[s] + [table[i][j]]
    ensures BucketOk(h, keq, bits, dict, s, b)
  {
    hide Seen, Pow2, Slot, Consistent;
    var e := table[i][j];
    assert BucketOk(h, keq, bits0, dict, i, table[i]) && Placed(h, bits0, dict, i, e);
    assert BucketOk(h, keq, bits, dict, s, moved[s]);
    forall x, y | 0 <= x < y < |b| ensures !keq(b[x].key, b[y].key) {
      if y == |b| - 1 {
        NextIsNew(h, keq, bits0, table, dict, i, j, bits, moved, s, x);
      }
    }
  }

  lemma CoversOneMore<K, V>(h: HFunc<K>, bits: nat, moved: Table<K, V>, e: Entry<K, V>, s: nat,
                             moved2: Table<K, V>, key: K)
    requires bits <= 32 && |moved| == Pow2(bits) && e.hv32 == h(e.key) && s == Slot(bits, e.hv32) && s < |moved|
    requires moved2 == moved[s := moved[s] + [e]]
    ensures Covers(h, bits, moved2, key) <==> Covers(h, bits, moved, key) || key == e.key
  {
    hide Slot, Pow2;
    SlotInRange(bits, h(key));
    var x := Slot(bits, h(key));
    if x == s {
      LastInBucket(moved[s], e, key);
    }
  }

  lemma LastInBucket<K, V>(b: Bucket<K, V>, e: Entry<K, V>, key: K)
    ensures InBucket(b + [e], key) <==> InBucket(b, key) || key == e.key
  {
    var c := b + [e];
    if InBucket(b, key) {
      var x :| 0 <= x < |b| && b[x].key == key;
      assert c[x].key == key;
    }
    assert c[|b|].key == e.key;
  }

  /** When all is seen the new table holds the same map. */
  lemma AllMoved<K(!new), V>(h: HFunc<K>, keq: KeyEq<K>, bits0: nat, table: Table<K, V>, dict: map<K, V>,
                             bits: nat, moved: Table<K, V>)
    requires Holds(h, keq, bits0, table, dict) && Moved(h, keq, table, dict, |table|, 0, bits, moved)
    ensures Holds(h, keq, bits, moved, dict)
  {
    hide Pow2, Slot, BucketOk;
    forall key | key in dict ensures Covers(h, bits, moved, key) {
      assert Covers(h, bits0, table, key);
      SlotInRange(bits0, h(key));
      var a := Slot(bits0, h(key));
      var b :| 0 <= b < |table[a]| && table[a][b].key == key;
      assert Seen(table, |table|, 0, key);
    }
  }

  // ----- a table with 32 bits

  /** No entry has been met so far. */
  ghost predicate NoneMet<K, V>(table: Table<K, V>, i: nat) {
    i <= |table| && forall a :: 0 <= a < i ==> table[a] == []
  }

  /** A table without entries holds the empty map. */
  lemma NoneMetAtAll<K, V>(h: HFunc<K>, keq: KeyEq<K>, bits: nat, table: Table<K, V>, dict: map<K, V>)
    requires Holds(h, keq, bits, table, dict) && NoneMet(table, |table|)
    ensures dict == map[]
  {
    hide Pow2, Slot;
    forall key | key in dict ensures false {
      assert Covers(h, bits, table, key);
      SlotInRange(bits, h(key));
    }
  }

  lemma EntryInMap<K, V>(h: HFunc<K>, keq: KeyEq<K>, bits: nat, table: Table<K, V>, dict: map<K, V>, i: nat)
    requires Holds(h, keq, bits, table, dict) && i < |table| && table[i] != []
    ensures dict != map[]
  {
    hide Pow2, Slot;
    assert BucketOk(h, keq, bits, dict, i, table[i]);
    assert Placed(h, bits, dict, i, table[i][0]);
  }
}
