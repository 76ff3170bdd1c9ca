/** Keys as paths of nibbles: two steps down the trie for each byte. */
module TriePath {

  type Nib = x: int | 0 <= x < 16

  type Byte = x: int | 0 <= x < 256

  type Path = seq<Nib>

  function Hi(c: Byte): Nib {
    c / 16
  }

  function Lo(c: Byte): Nib {
    c % 16
  }

  function Join(hi: Nib, lo: Nib): Byte {
    hi * 16 + lo
  }

  /** One step further down. */
  function Kid(p: Path, i: Nib): (r: Path)
    ensures r != [] && r[..|r| - 1] == p && r[|r| - 1] == i
  {
    p + [i]
  }

  lemma KidInjective(p: Path, i: Nib, q: Path, j: Nib)
    requires Kid(p, i) == Kid(q, j)
    ensures p == q && i == j
  {
  }

  function Nibbles(key: seq<Byte>): (p: Path)
    ensures |p| == 2 * |key|
  {
    if key == [] then [] else Nibbles(key[..|key| - 1]) + [Hi(key[|key| - 1]), Lo(key[|key| - 1])]
  }

  /** The key that a path of even length spells. */
  function Bytes(p: Path): (key: seq<Byte>)
    requires |p| % 2 == 0
    ensures |key| == |p| / 2
  {
    if p == [] then [] else Bytes(p[..|p| - 2]) + [Join(p[|p| - 2], p[|p| - 1])]
  }

  lemma HiLo(c: Byte)
    ensures Join(Hi(c), Lo(c)) == c
  {
  }

  lemma JoinSplits(hi: Nib, lo: Nib)
    ensures Hi(Join(hi, lo)) == hi && Lo(Join(hi, lo)) == lo
  {
  }

  /** A byte more is two steps more. */
  lemma NibblesSnoc(key: seq<Byte>, c: Byte)
    ensures Nibbles(key + [c]) == Kid(Kid(Nibbles(key), Hi(c)), Lo(c))
  {
    assert (key + [c])[..|key|] == key;
    hide Hi, Lo;
  }

  lemma NibblesAppend(key: seq<Byte>, c: Byte)
    ensures Nibbles(key + [c]) == Nibbles(key) + [Hi(c), Lo(c)]
  {
    assert (key + [c])[..|key|] == key;
    hide Hi, Lo;
  }

  /** Two nibbles at the end are one byte at the end. */
  lemma BytesAppend(p: Path, h: Nib, l: Nib)
    requires |p| % 2 == 0
    ensures Bytes(p + [h, l]) == Bytes(p) + [Join(h, l)]
  {
    assert (p + [h, l])[..|p|] == p;
    hide Join;
  }

  lemma {:induction false} BytesOfNibbles(key: seq<Byte>)
    ensures Bytes(Nibbles(key)) == key
  {
    hide Hi, Lo, Join, Nibbles, Bytes;
    if key == [] {
      NoNibbles([]);
      NoBytes();
    } else {
      var init, c := key[..|key| - 1], key[|key| - 1];
      assert key == init + [c];
      BytesOfNibbles(init);
      NibblesAppend(init, c);
      BytesAppend(Nibbles(init), Hi(c), Lo(c));
      HiLo(c);
    }
  }

  lemma NoBytes()
    ensures Bytes([]) == []
  {
  }

  lemma LastTwo(p: Path)
    requires |p| >= 2
    ensures p == p[..|p| - 2] + [p[|p| - 2], p[|p| - 1]]
  {
  }

  lemma {:induction false} NibblesOfBytes(p: Path)
    requires |p| % 2 == 0
    ensures Nibbles(Bytes(p)) == p
  {
    hide Hi, Lo, Join, Nibbles;
    if p == [] {
      NoNibbles([]);
    } else {
      var init := p[..|p| - 2];
      LastTwo(p);
      NibblesOfBytes(init);
      JoinSplits(p[|p| - 2], p[|p| - 1]);
      NibblesAppend(Bytes(init), Join(p[|p| - 2], p[|p| - 1]));
    }
  }

  lemma {:induction false} NibblesConcat(a: seq<Byte>, b: seq<Byte>)
    ensures Nibbles(a + b) == Nibbles(a) + Nibbles(b)
  {
    hide Hi, Lo;
    if b == [] {
      assert a + b == a;
    } else {
      var c, x := b[..|b| - 1], b[|b| - 1];
      assert (a + b)[..|a + b| - 1] == a + c && (a + b)[|a + b| - 1] == x;
      NibblesConcat(a, c);
      assert Nibbles(a) + Nibbles(c) + [Hi(x), Lo(x)] == Nibbles(a) + (Nibbles(c) + [Hi(x), Lo(x)]);
    }
  }

  lemma NoNibbles(key: seq<Byte>)
    ensures Nibbles(key[..0]) == [] && Nibbles([]) == []
  {
  }

  lemma KidExtends(p: Path, i: Nib)
    ensures p <= Kid(p, i)
  {
  }

  /** Both steps for byte `i` lie on the path of the whole key. */
  lemma OneByteOn(key: seq<Byte>, i: nat)
    requires i < |key|
    ensures var p, c := Nibbles(key[..i]), key[i];
      && Nibbles(key[..i + 1]) == Kid(Kid(p, Hi(c)), Lo(c))
      && p <= Kid(p, Hi(c)) && Kid(p, Hi(c)) <= Nibbles(key) && Nibbles(key[..i + 1]) <= Nibbles(key)
  {
    hide Hi, Lo, Nibbles, Kid;
    var p, c, rest := Nibbles(key[..i]), key[i], Nibbles(key[i + 1..]);
    SplitAt(key, i);
    NibblesSnoc(key[..i], c);
    NibblesConcat(key[..i + 1], key[i + 1..]);
    KidExtends(p, Hi(c));
    TwoKidsExtend(p, Hi(c), Lo(c), rest);
  }

  lemma SplitAt(key: seq<Byte>, i: nat)
    requires i < |key|
    ensures key[..i + 1] == key[..i] + [key[i]]
    ensures key == key[..i + 1] + key[i + 1..]
  {
  }

  lemma TwoKidsExtend(p: Path, h: Nib, l: Nib, rest: Path)
    ensures Kid(Kid(p, h), l) <= Kid(Kid(p, h), l) + rest
    ensures Kid(p, h) <= Kid(Kid(p, h), l) + rest
  {
    assert Kid(Kid(p, h), l) + rest == Kid(p, h) + ([l] + rest);
  }

  lemma TwoStepsOn(p: Path, h: Nib, l: Nib, rest: Path)
    ensures p + ([h, l] + rest) == Kid(Kid(p, h), l) + rest
    ensures p <= Kid(p, h) <= Kid(Kid(p, h), l) <= Kid(Kid(p, h), l) + rest
  {
  }

  lemma NibblesInjective(a: seq<Byte>, b: seq<Byte>)
    requires Nibbles(a) == Nibbles(b)
    ensures a == b
  {
    BytesOfNibbles(a);
    BytesOfNibbles(b);
  }

  // ----- order

  /** Lexicographic order, a proper prefix first. */
  predicate Before(a: seq<int>, b: seq<int>) {
    b != [] && (a == [] || a[0] < b[0] || (a[0] == b[0] && Before(a[1..], b[1..])))
  }

  lemma NibblesFirst(a: seq<Byte>)
    requires a != []
    ensures Nibbles(a) == [Hi(a[0]), Lo(a[0])] + Nibbles(a[1..])
  {
    hide Hi, Lo;
    NibblesConcat([a[0]], a[1..]);
    assert a == [a[0]] + a[1..];
    assert [a[0]][..0] == [];
    assert Nibbles([a[0]]) == [Hi(a[0]), Lo(a[0])];
  }

  lemma ByteOrder(c: Byte, d: Byte)
    ensures c < d <==> Hi(c) < Hi(d) || (Hi(c) == Hi(d) && Lo(c) < Lo(d))
    ensures c == d <==> Hi(c) == Hi(d) && Lo(c) == Lo(d)
  {
  }

  lemma BeforeTwo(h: int, l: int, x: seq<int>, k: int, m: int, y: seq<int>)
    ensures Before([h, l] + x, [k, m] + y) <==> h < k || (h == k && (l < m || (l == m && Before(x, y))))
  {
    var a, b := [h, l] + x, [k, m] + y;
    assert a[1..] == [l] + x && b[1..] == [m] + y;
    assert a[1..][1..] == x && b[1..][1..] == y;
  }

  /** The order of nibble paths is the order of the keys. */
  lemma {:induction false} SameOrder(a: seq<Byte>, b: seq<Byte>)
    ensures Before(Nibbles(a), Nibbles(b)) <==> Before(a, b)
    decreases |a|
  {
    hide Hi, Lo, Nibbles;
    if a != [] && b != [] {
      NibblesFirst(a);
      NibblesFirst(b);
      BeforeTwo(Hi(a[0]), Lo(a[0]), Nibbles(a[1..]), Hi(b[0]), Lo(b[0]), Nibbles(b[1..]));
      ByteOrder(a[0], b[0]);
      SameOrder(a[1..], b[1..]);
    }
  }

  lemma {:induction false} NotBeforeItself(a: seq<int>)
    ensures !Before(a, a)
  {
    if a != [] {
      NotBeforeItself(a[1..]);
    }
  }

  lemma {:induction false} BeforeCommonPrefix(p: seq<int>, a: seq<int>, b: seq<int>)
    ensures Before(p + a, p + b) <==> Before(a, b)
  {
    if p == [] {
      assert p + a == a && p + b == b;
    } else {
      assert (p + a)[1..] == p[1..] + a && (p + b)[1..] == p[1..] + b;
      BeforeCommonPrefix(p[1..], a, b);
    }
  }

  /** A prefix that is not the whole comes first. */
  lemma PrefixBefore(p: seq<int>, q: seq<int>)
    requires p <= q && p != q
    ensures Before(p, q)
  {
    assert p + [] == p && q == p + q[|p|..];
    BeforeCommonPrefix(p, [], q[|p|..]);
  }

  /** Paths below different children are ordered as the children are. */
  lemma KidsBefore(p: Path, i: Nib, j: Nib, a: Path, b: Path)
    requires i < j && Kid(p, i) <= a && Kid(p, j) <= b
    ensures Before(a, b)
  {
    var x, y := a[|p|..], b[|p|..];
    assert a == p + x && b == p + y;
    BeforeCommonPrefix(p, x, y);
  }
}
