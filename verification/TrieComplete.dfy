/** What auto-completion has to find: the longest extension that all keys with a prefix share. */
module TrieComplete {
  import opened Basics
  import opened TriePath
  import opened TrieShape

  /** Every stored key with this prefix goes on with `e`. */
  ghost predicate Common(c: map<Path, Value>, prefix: seq<Byte>, e: seq<Byte>) {
    forall k :: Nibbles(prefix + k) in c ==> e <= k
  }

  ghost predicate Longest(c: map<Path, Value>, prefix: seq<Byte>, e: seq<Byte>) {
    Common(c, prefix, e) && forall other :: Common(c, prefix, other) ==> |other| <= |e|
  }

  ghost predicate SomeKey(c: map<Path, Value>, prefix: seq<Byte>) {
    exists k :: Nibbles(prefix + k) in c
  }

  ghost predicate OnlyKey(c: map<Path, Value>, prefix: seq<Byte>, e: seq<Byte>) {
    forall k :: Nibbles(prefix + k) in c <==> k == e
  }

  ghost predicate TwoKeys(c: map<Path, Value>, prefix: seq<Byte>) {
    exists k, l :: k != l && Nibbles(prefix + k) in c && Nibbles(prefix + l) in c
  }

  // ----- the same in terms of paths

  lemma NibblesMonotone(a: seq<Byte>, b: seq<Byte>)
    requires a <= b
    ensures Nibbles(a) <= Nibbles(b)
  {
    hide Nibbles;
    assert b == a + b[|a|..];
    NibblesConcat(a, b[|a|..]);
  }

  lemma NibblesReflect(a: seq<Byte>, b: seq<Byte>)
    requires Nibbles(a) <= Nibbles(b)
    ensures a <= b
  {
    hide Nibbles, Bytes;
    var rest := Nibbles(b)[2 * |a|..];
    NibblesOfBytes(rest);
    NibblesConcat(a, Bytes(rest));
    NibblesInjective(b, a + Bytes(rest));
  }

  /** All stored paths below `low` lie below `p`. */
  ghost predicate AllBelow(c: map<Path, Value>, low: Path, p: Path) {
    forall q :: q in c && low <= q ==> p <= q
  }

  lemma BelowIsCommon(c: map<Path, Value>, prefix: seq<Byte>, e: seq<Byte>)
    requires AllBelow(c, Nibbles(prefix), Nibbles(prefix + e))
    ensures Common(c, prefix, e)
  {
    hide Nibbles;
    forall k | Nibbles(prefix + k) in c ensures e <= k {
      NibblesMonotone(prefix, prefix + k);
      NibblesReflect(prefix + e, prefix + k);
      assert (prefix + e)[|prefix|..] == e && (prefix + k)[|prefix|..] == k;
    }
  }

  lemma CommonIsBelow(at: Nodes, view: View, rt: Node, prefix: seq<Byte>, e: seq<Byte>, q: Path)
    requires Linked(at, view, rt) && Common(Content(view), prefix, e)
    requires q in Content(view) && Nibbles(prefix) <= q
    ensures Nibbles(prefix + e) <= q
  {
    hide Linked, Nibbles, Content;
    var k := RestOfKey(at, view, rt, prefix, q);
    assert e <= k && prefix + e <= prefix + k;
    NibblesMonotone(prefix + e, prefix + k);
  }

  /** Two stored paths that part within the next byte: nothing longer is shared. */
  predicate PartSoon(p: Path, q: Path, r: Path) {
    |q| < |p| + 2 || |r| < |p| + 2 || q[..|p| + 2] != r[..|p| + 2]
  }

  lemma SharedStart(p: Path, q: Path, r: Path, n: nat)
    requires p <= q && p <= r && n <= |p|
    ensures n <= |q| && n <= |r| && q[..n] == r[..n]
  {
    assert q[..n] == p[..n];
  }

  lemma NotLonger(p: Path, q: Path, r: Path, b: Path)
    requires p <= q && p <= r && PartSoon(b, q, r)
    ensures |p| < |b| + 2
  {
    hide PartSoon;
    var n := |b| + 2;
    if n <= |p| {
      SharedStart(p, q, r, n);
      SharedIsNotSoon(b, q, r);
    }
  }

  lemma SharedIsNotSoon(b: Path, q: Path, r: Path)
    requires |b| + 2 <= |q| && |b| + 2 <= |r| && q[..|b| + 2] == r[..|b| + 2]
    ensures !PartSoon(b, q, r)
  {
  }

  lemma LongestAt(at: Nodes, view: View, rt: Node, prefix: seq<Byte>, e: seq<Byte>, q: Path, r: Path)
    requires Linked(at, view, rt) && AllBelow(Content(view), Nibbles(prefix), Nibbles(prefix + e))
    requires q in Content(view) && Nibbles(prefix) <= q && r in Content(view) && Nibbles(prefix) <= r
    requires PartSoon(Nibbles(prefix + e), q, r)
    ensures Longest(Content(view), prefix, e)
  {
    var c := Content(view);
    hide Linked, Nibbles, Content;
    BelowIsCommon(c, prefix, e);
    forall other | Common(c, prefix, other) ensures |other| <= |e| {
      CommonIsBelow(at, view, rt, prefix, other, q);
      CommonIsBelow(at, view, rt, prefix, other, r);
      var p := Nibbles(prefix + other);
      NotLonger(p, q, r, Nibbles(prefix + e));
    }
  }

  lemma TwoKeysAt(at: Nodes, view: View, rt: Node, prefix: seq<Byte>, q: Path, r: Path)
    requires Linked(at, view, rt) && q != r
    requires q in Content(view) && Nibbles(prefix) <= q && r in Content(view) && Nibbles(prefix) <= r
    ensures TwoKeys(Content(view), prefix)
  {
    hide Linked, Nibbles, Content;
    var k := RestOfKey(at, view, rt, prefix, q);
    var l := RestOfKey(at, view, rt, prefix, r);
  }

  // ----- the three ends of the search

  /** Keys below two children of a node. */
  lemma ForkAt(at: Nodes, view: View, rt: Node, p: Path, i: Nib, j: Nib) returns (q: Path, r: Path)
    requires Linked(at, view, rt) && Pruned(at, view) && i != j && Kid(p, i) in at && Kid(p, j) in at
    ensures q in Content(view) && r in Content(view) && Kid(p, i) <= q && Kid(p, j) <= r && q != r
  {
    hide Linked, Pruned, Content, IsLeaf;
    q := SomeKeyBelow(at, view, rt, Kid(p, i));
    r := SomeKeyBelow(at, view, rt, Kid(p, j));
    assert q[|p|] == Kid(p, i)[|p|] && r[|p|] == Kid(p, j)[|p|];
  }

  lemma ForkParts(p: Path, f: Path, i: Nib, j: Nib, q: Path, r: Path)
    requires p <= f && |f| <= |p| + 1 && i != j && Kid(f, i) <= q && Kid(f, j) <= r
    ensures PartSoon(p, q, r) && p <= q && p <= r
  {
    assert q[|f|] == Kid(f, i)[|f|] && r[|f|] == Kid(f, j)[|f|];
    if |q| >= |p| + 2 && |r| >= |p| + 2 {
      assert q[..|p| + 2][|f|] != r[..|p| + 2][|f|];
    }
    assert p == f[..|p|] == Kid(f, i)[..|p|] == q[..|p|];
    assert p == Kid(f, j)[..|p|] == r[..|p|];
  }

  /** A node within the next byte with two children: the keys part here. */
  lemma Fork(at: Nodes, view: View, rt: Node, prefix: seq<Byte>, e: seq<Byte>, f: Path, i: Nib, j: Nib)
    requires Linked(at, view, rt) && Pruned(at, view) && i != j && Kid(f, i) in at && Kid(f, j) in at
    requires Nibbles(prefix + e) <= f && |f| <= |Nibbles(prefix + e)| + 1
    requires AllBelow(Content(view), Nibbles(prefix), Nibbles(prefix + e))
    ensures Longest(Content(view), prefix, e) && TwoKeys(Content(view), prefix)
  {
    hide Linked, Pruned, Content, Longest, TwoKeys, AllBelow, PartSoon, Kid, Nibbles;
    var q, r := ForkAt(at, view, rt, f, i, j);
    ForkParts(Nibbles(prefix + e), f, i, j, q, r);
    NibblesMonotone(prefix, prefix + e);
    Through(Nibbles(prefix), Nibbles(prefix + e), q);
    Through(Nibbles(prefix), Nibbles(prefix + e), r);
    LongestAt(at, view, rt, prefix, e, q, r);
    TwoKeysAt(at, view, rt, prefix, q, r);
  }

  lemma Through(a: Path, b: Path, c: Path)
    requires a <= b <= c
    ensures a <= c
  {
  }

  /** A key ends here: nothing longer is shared. */
  lemma EndsHere(at: Nodes, view: View, rt: Node, prefix: seq<Byte>, e: seq<Byte>)
    requires Linked(at, view, rt) && Nibbles(prefix + e) in Content(view)
    requires AllBelow(Content(view), Nibbles(prefix), Nibbles(prefix + e))
    ensures Longest(Content(view), prefix, e)
  {
    hide Linked, Content, Longest, AllBelow, Nibbles;
    NibblesMonotone(prefix, prefix + e);
    LongestAt(at, view, rt, prefix, e, Nibbles(prefix + e), Nibbles(prefix + e));
  }

  /** A key ends here and another goes on. */
  lemma EndsAndGoesOn(at: Nodes, view: View, rt: Node, prefix: seq<Byte>, e: seq<Byte>, i: Nib)
    requires Linked(at, view, rt) && Pruned(at, view) && Nibbles(prefix + e) in Content(view)
    requires Kid(Nibbles(prefix + e), i) in at
    ensures TwoKeys(Content(view), prefix)
  {
    hide Linked, Pruned, Content, TwoKeys, Nibbles, IsLeaf;
    var p := Nibbles(prefix + e);
    var r := SomeKeyBelow(at, view, rt, Kid(p, i));
    NibblesMonotone(prefix, prefix + e);
    assert p == Kid(p, i)[..|p|] == r[..|p|];
    TwoKeysAt(at, view, rt, prefix, p, r);
  }

  /** A leaf here: this is the only key. */
  lemma OnlyAt(at: Nodes, view: View, rt: Node, prefix: seq<Byte>, e: seq<Byte>)
    requires Linked(at, view, rt) && Nibbles(prefix + e) in Content(view) && IsLeaf(at, Nibbles(prefix + e))
    requires AllBelow(Content(view), Nibbles(prefix), Nibbles(prefix + e))
    ensures OnlyKey(Content(view), prefix, e)
  {
    hide Nibbles, Apart, CellOk, Kid;
    var c, p := Content(view), Nibbles(prefix + e);
    forall k | Nibbles(prefix + k) in c ensures k == e {
      var q := Nibbles(prefix + k);
      NibblesMonotone(prefix, prefix + k);
      assert p <= q;
      if p != q {
        NotLeafAbove(at, view, p, q);
      }
      NibblesInjective(prefix + k, prefix + e);
      assert (prefix + k)[|prefix|..] == k && (prefix + e)[|prefix|..] == e;
    }
  }

  lemma ProperlyBelow(p: Path, q: Path)
    requires p <= q && p != q
    ensures |p| < |q|
  {
  }

  /** Only one way on: all keys take it. */
  lemma OneWayOn(at: Nodes, view: View, rt: Node, low: Path, p: Path, i: Nib)
    requires Linked(at, view, rt) && AllBelow(Content(view), low, p) && p !in Content(view)
    requires forall j: Nib :: Kid(p, j) in at ==> j == i
    ensures AllBelow(Content(view), low, Kid(p, i))
  {
    hide Apart, CellOk;
    forall q | q in Content(view) && low <= q ensures Kid(p, i) <= q {
      ProperlyBelow(p, q);
      var k := Kid(p, q[|p|]);
      assert k <= q;
      if k !in at {
        NotBelow(at, k, q);
      }
    }
  }

  /** What all keys go on with leaves no place for the trailing zero. */
  ghost predicate TooLong(c: map<Path, Value>, prefix: seq<Byte>, room: nat) {
    SomeKey(c, prefix) && exists e :: Common(c, prefix, e) && |e| >= room
  }

  lemma FitsIsNotTooLong(c: map<Path, Value>, prefix: seq<Byte>, e: seq<Byte>, room: nat)
    requires Longest(c, prefix, e) && |e| < room
    ensures !TooLong(c, prefix, room)
  {
    hide Common;
  }

  /** Where the search stands: at a node that all keys with the prefix pass. */
  ghost predicate Reached(at: Nodes, view: View, prefix: seq<Byte>, e: seq<Byte>) {
    && Nibbles(prefix + e) in at && AllBelow(Content(view), Nibbles(prefix), Nibbles(prefix + e))
    && SomeKey(Content(view), prefix)
  }

  /** What the search stops with. */
  ghost predicate Found(c: map<Path, Value>, prefix: seq<Byte>, e: seq<Byte>, r: int) {
    && Longest(c, prefix, e)
    && ((r == 1 && OnlyKey(c, prefix, e)) || (r == 0 && TwoKeys(c, prefix)))
  }

  lemma KidsOf(at: Nodes, view: View, rt: Node, p: Path)
    requires Linked(at, view, rt) && p in at
    ensures |view[p].n| == 16 && forall i: Nib :: view[p].n[i] != null <==> Kid(p, i) in at
    ensures view[p].n == Childless() ==> IsLeaf(at, p)
    ensures view[p].v.Some? <==> p in Content(view)
    ensures p in Content(view) ==> |p| % 2 == 0
    ensures |p| < 2 * MAX_KEY_LEN
  {
    assert CellOk(at, view, p);
    forall i: Nib ensures view[p].n[i] != null <==> Kid(p, i) in at {
      assert view[p].n[i] == KidOf(at, p, i);
    }
  }

  /** The search starts at the prefix. */
  lemma StartsThere(at: Nodes, view: View, prefix: seq<Byte>)
    requires Nibbles(prefix) in at && SomeKey(Content(view), prefix)
    ensures Reached(at, view, prefix, [])
  {
    assert prefix + [] == prefix;
  }

  /** Several children, or one and a value. */
  lemma FrontBranch(at: Nodes, view: View, rt: Node, prefix: seq<Byte>, e: seq<Byte>, i: Nib, j: Nib)
    requires Linked(at, view, rt) && Pruned(at, view) && Reached(at, view, prefix, e)
    requires var p := Nibbles(prefix + e);
      Kid(p, i) in at && ((i != j && Kid(p, j) in at) || p in Content(view))
    ensures Found(Content(view), prefix, e, 0)
  {
    hide Linked, Pruned, Content, Longest, TwoKeys, AllBelow, Kid, Nibbles;
    var p := Nibbles(prefix + e);
    if p in Content(view) {
      EndsHere(at, view, rt, prefix, e);
      EndsAndGoesOn(at, view, rt, prefix, e, i);
    } else {
      Fork(at, view, rt, prefix, e, p, i, j);
    }
  }

  /** No children: the value is there, unless this is the root of an empty trie. */
  lemma FrontLeaf(at: Nodes, view: View, rt: Node, prefix: seq<Byte>, e: seq<Byte>)
    requires Linked(at, view, rt) && Pruned(at, view) && Reached(at, view, prefix, e)
    requires IsLeaf(at, Nibbles(prefix + e))
    ensures Nibbles(prefix + e) in Content(view) && Found(Content(view), prefix, e, 1)
  {
    var p := Nibbles(prefix + e);
    KeyAtLeaf(at, view, rt, prefix, p);
    hide Linked, Pruned, Content, Longest, AllBelow, Nibbles, IsLeaf, OnlyKey;
    EndsHere(at, view, rt, prefix, e);
    OnlyAt(at, view, rt, prefix, e);
  }

  lemma KeyAtLeaf(at: Nodes, view: View, rt: Node, prefix: seq<Byte>, p: Path)
    requires Linked(at, view, rt) && IsLeaf(at, p) && p in at
    requires AllBelow(Content(view), Nibbles(prefix), p) && SomeKey(Content(view), prefix)
    ensures p in Content(view)
  {
    hide Nibbles, Apart, CellOk, Kid;
    var k :| Nibbles(prefix + k) in Content(view);
    NibblesMonotone(prefix, prefix + k);
    var q := Nibbles(prefix + k);
    if p != q {
      NotLeafAbove(at, view, p, q);
    }
  }

  /** One child, with several children. */
  lemma BackBranch(at: Nodes, view: View, rt: Node, prefix: seq<Byte>, e: seq<Byte>, h: Nib, i: Nib, j: Nib)
    requires Linked(at, view, rt) && Pruned(at, view) && Reached(at, view, prefix, e)
    requires var f := Kid(Nibbles(prefix + e), h); i != j && Kid(f, i) in at && Kid(f, j) in at
    ensures Found(Content(view), prefix, e, 0)
  {
    hide Linked, Pruned, Content, Longest, TwoKeys, AllBelow, Nibbles;
    KidExtends(Nibbles(prefix + e), h);
    Fork(at, view, rt, prefix, e, Kid(Nibbles(prefix + e), h), i, j);
  }

  /** A front node below which nothing hangs cannot be. */
  lemma FrontNodeGoesOn(at: Nodes, view: View, p: Path, h: Nib)
    requires Pruned(at, view) && Kid(p, h) in at && Kid(p, h) !in Content(view)
    ensures !IsLeaf(at, Kid(p, h))
  {
    assert LeafOk(at, view, Kid(p, h));
  }

  /** One way on through both nodes of a byte. */
  lemma OneByteMore(at: Nodes, view: View, rt: Node, prefix: seq<Byte>, e: seq<Byte>, c: Byte)
    requires Linked(at, view, rt) && Reached(at, view, prefix, e)
    requires var p := Nibbles(prefix + e); var f := Kid(p, Hi(c));
      && p !in Content(view) && f !in Content(view) && Kid(f, Lo(c)) in at
      && (forall j: Nib :: Kid(p, j) in at ==> j == Hi(c)) && (forall j: Nib :: Kid(f, j) in at ==> j == Lo(c))
    ensures Nibbles(prefix + (e + [c])) == Kid(Kid(Nibbles(prefix + e), Hi(c)), Lo(c))
    ensures Reached(at, view, prefix, e + [c]) && Common(Content(view), prefix, e + [c])
  {
    hide Linked, Content, AllBelow, Kid, Nibbles, Hi, Lo, Common;
    var p, low := Nibbles(prefix + e), Nibbles(prefix);
    OneWayOn(at, view, rt, low, p, Hi(c));
    OneWayOn(at, view, rt, low, Kid(p, Hi(c)), Lo(c));
    NibblesSnoc(prefix + e, c);
    assert prefix + e + [c] == prefix + (e + [c]);
    BelowIsCommon(Content(view), prefix, e + [c]);
  }
}
