/** Trees, the places in them, and the three orders of visiting these, by recursion. */
module TreeOrder {
  import opened Basics

  datatype Tree = Tree(kids: seq<Tree>)

  /** A place: which child to take at each step down from the top. */
  type Path = seq<nat>

  /** A node: its place and what hangs below it. */
  datatype Link = Link(p: Path, t: Tree)

  function Kid(x: Link, k: nat): Link
    requires k < |x.t.kids|
  {
    Link(x.p + [k], x.t.kids[k])
  }

  /** The index of the `j`th child, counted from the left or from the right. */
  function Nth(n: nat, j: nat, l2r: bool): (k: nat)
    requires j < n
    ensures k < n
  {
    if l2r then j else n - 1 - j
  }

  function Pre(x: Link, l2r: bool): seq<Path>
    decreases x.t, |x.t.kids| + 1
  {
    [x.p] + PreFrom(x, 0, l2r)
  }

  /** What lies below `x`, from its `j`th child on. */
  function PreFrom(x: Link, j: nat, l2r: bool): seq<Path>
    requires j <= |x.t.kids|
    decreases x.t, |x.t.kids| - j
  {
    if j == |x.t.kids| then []
    else Pre(Kid(x, Nth(|x.t.kids|, j, l2r)), l2r) + PreFrom(x, j + 1, l2r)
  }

  function Post(x: Link, l2r: bool): seq<Path>
    decreases x.t, |x.t.kids| + 1
  {
    PostFrom(x, 0, l2r) + [x.p]
  }

  function PostFrom(x: Link, j: nat, l2r: bool): seq<Path>
    requires j <= |x.t.kids|
    decreases x.t, |x.t.kids| - j
  {
    if j == |x.t.kids| then []
    else Post(Kid(x, Nth(|x.t.kids|, j, l2r)), l2r) + PostFrom(x, j + 1, l2r)
  }

  // ----- level order

  function KidsOf(x: Link): seq<Link> {
    seq(|x.t.kids|, k requires 0 <= k < |x.t.kids| => Kid(x, k))
  }

  function AllKids(level: seq<Link>): seq<Link> {
    if level == [] then [] else KidsOf(level[0]) + AllKids(level[1..])
  }

  function Paths(level: seq<Link>): seq<Path> {
    seq(|level|, i requires 0 <= i < |level| => level[i].p)
  }

  function Size(t: Tree): nat
    decreases t, |t.kids| + 1
  {
    1 + SizeFrom(t, 0)
  }

  function SizeFrom(t: Tree, j: nat): nat
    requires j <= |t.kids|
    decreases t, |t.kids| - j
  {
    if j == |t.kids| then 0 else Size(t.kids[j]) + SizeFrom(t, j + 1)
  }

  function Sizes(level: seq<Link>): nat {
    if level == [] then 0 else Size(level[0].t) + Sizes(level[1..])
  }

  lemma {:induction false} SizesConcat(a: seq<Link>, b: seq<Link>)
    ensures Sizes(a + b) == Sizes(a) + Sizes(b)
  {
    if a == [] {
      assert a + b == b;
    } else {
      assert (a + b)[1..] == a[1..] + b;
      SizesConcat(a[1..], b);
    }
  }

  lemma {:induction false} SizesOfKids(x: Link, j: nat)
    requires j <= |x.t.kids|
    ensures Sizes(KidsOf(x)[j..]) == SizeFrom(x.t, j)
    decreases |x.t.kids| - j
  {
    if j < |x.t.kids| {
      SizesOfKids(x, j + 1);
      assert KidsOf(x)[j..][1..] == KidsOf(x)[j + 1..];
    }
  }

  lemma {:induction false} KidsAreSmaller(level: seq<Link>)
    ensures Sizes(AllKids(level)) + |level| == Sizes(level)
  {
    if level != [] {
      KidsAreSmaller(level[1..]);
      SizesConcat(KidsOf(level[0]), AllKids(level[1..]));
      SizesOfKids(level[0], 0);
      assert KidsOf(level[0])[0..] == KidsOf(level[0]);
    }
  }

  /** One level from left to right, then the next one down. */
  function Levels(level: seq<Link>): seq<Path>
    decreases Sizes(level)
  {
    if level == [] then [] else
      KidsAreSmaller(level);
      Paths(level) + Levels(AllKids(level))
  }

  lemma {:induction false} AllKidsConcat(a: seq<Link>, b: seq<Link>)
    ensures AllKids(a + b) == AllKids(a) + AllKids(b)
  {
    if a == [] {
      assert a + b == b;
    } else {
      assert (a + b)[1..] == a[1..] + b;
      AllKidsConcat(a[1..], b);
      assert KidsOf(a[0]) + (AllKids(a[1..]) + AllKids(b)) == KidsOf(a[0]) + AllKids(a[1..]) + AllKids(b);
    }
  }

  /**
   * Breadth first: with the rest of one level in the queue and what has been found of the next level
   * behind it, the first node of the level goes and its children join.
   */
  lemma LevelStep(x: Link, level: seq<Link>, next: seq<Link>)
    ensures Paths([x] + level) + Levels(next + AllKids([x] + level))
         == [x.p] + (Paths(level) + Levels(next + KidsOf(x) + AllKids(level)))
  {
    AllKidsConcat([x], level);
    assert AllKids([x]) == KidsOf(x) by {
      assert [x][1..] == [];
    }
    assert next + (KidsOf(x) + AllKids(level)) == next + KidsOf(x) + AllKids(level);
    assert Paths([x] + level) == [x.p] + Paths(level);
  }

  /** The order in which a queue is worked off, each node putting its children behind. */
  function Bfs(q: seq<Link>): seq<Path>
    decreases Sizes(q)
  {
    if q == [] then [] else
      SmallerQueue(q);
      [q[0].p] + Bfs(q[1..] + KidsOf(q[0]))
  }

  lemma SmallerQueue(q: seq<Link>)
    requires q != []
    ensures Sizes(q[1..] + KidsOf(q[0])) < Sizes(q)
  {
    SizesConcat(q[1..], KidsOf(q[0]));
    SizesOfKids(q[0], 0);
    assert KidsOf(q[0])[0..] == KidsOf(q[0]);
  }

  lemma BfsStep(x: Link, q: seq<Link>)
    ensures Bfs([x] + q) == [x.p] + Bfs(q + KidsOf(x))
  {
    assert ([x] + q)[1..] == q;
  }

  /** The queue holds the rest of one level, and then what has been found of the next. */
  lemma {:induction false} BfsIsLevels(level: seq<Link>, next: seq<Link>)
    ensures Bfs(level + next) == Paths(level) + Levels(next + AllKids(level))
    decreases Sizes(level + next), |next|
  {
    hide Sizes, KidsOf;
    if level != [] {
      var x, rest := level[0], level[1..];
      SmallerQueue(level + next);
      assert (level + next)[1..] + KidsOf(x) == rest + (next + KidsOf(x));
      BfsIsLevels(rest, next + KidsOf(x));
      LevelStep(x, rest, next);
      assert [x] + rest == level;
    } else if next != [] {
      assert level + next == next && next + [] == next;
      BfsIsLevels(next, []);
      assert [] + AllKids(next) == AllKids(next);
      assert Paths([]) == [];
    } else {
      assert level + next == [] && Paths([]) == [] && next + AllKids(level) == [];
    }
  }

  // ----- mirror images

  function Reverse<T>(s: seq<T>): (r: seq<T>)
    ensures |r| == |s|
  {
    if s == [] then [] else Reverse(s[1..]) + [s[0]]
  }

  lemma {:induction false} ReverseConcat<T>(a: seq<T>, b: seq<T>)
    ensures Reverse(a + b) == Reverse(b) + Reverse(a)
  {
    if a == [] {
      assert a + b == b;
    } else {
      assert (a + b)[1..] == a[1..] + b;
      ReverseConcat(a[1..], b);
    }
  }

  /** What lies below the first `m` children, each node after what lies below it. */
  function PostTo(x: Link, m: nat, l2r: bool): seq<Path>
    requires m <= |x.t.kids|
  {
    if m == 0 then [] else PostTo(x, m - 1, l2r) + Post(Kid(x, Nth(|x.t.kids|, m - 1, l2r)), l2r)
  }

  lemma {:induction false} PostSplit(x: Link, m: nat, l2r: bool)
    requires m <= |x.t.kids|
    ensures PostTo(x, m, l2r) + PostFrom(x, m, l2r) == PostFrom(x, 0, l2r)
  {
    if m > 0 {
      PostSplit(x, m - 1, l2r);
      var kid := Post(Kid(x, Nth(|x.t.kids|, m - 1, l2r)), l2r);
      assert PostTo(x, m - 1, l2r) + (kid + PostFrom(x, m, l2r)) == PostTo(x, m - 1, l2r) + kid + PostFrom(x, m, l2r);
    }
  }

  /** Pre-order from one side is post-order from the other, backwards. */
  lemma {:induction false} MirroredPre(x: Link, l2r: bool)
    ensures Reverse(Pre(x, !l2r)) == Post(x, l2r)
    decreases x.t, |x.t.kids| + 1
  {
    MirroredFrom(x, 0, l2r);
    PostSplit(x, |x.t.kids|, l2r);
    ReverseConcat([x.p], PreFrom(x, 0, !l2r));
    assert Reverse([x.p]) == [x.p];
  }

  lemma {:induction false} MirroredFrom(x: Link, j: nat, l2r: bool)
    requires j <= |x.t.kids|
    ensures Reverse(PreFrom(x, j, !l2r)) == PostTo(x, |x.t.kids| - j, l2r)
    decreases x.t, |x.t.kids| - j
  {
    if j < |x.t.kids| {
      var k := Kid(x, Nth(|x.t.kids|, j, !l2r));
      MirroredFrom(x, j + 1, l2r);
      MirroredPre(k, l2r);
      ReverseConcat(Pre(k, !l2r), PreFrom(x, j + 1, !l2r));
    }
  }

  // ----- each node once

  /** Whether a place, counted from the root of `t`, is there. */
  predicate Exists(t: Tree, p: Path) {
    p == [] || (p[0] < |t.kids| && Exists(t.kids[p[0]], p[1..]))
  }

  /** The places at and below `x`. */
  ghost predicate Below(x: Link, p: Path) {
    x.p <= p && Exists(x.t, p[|x.p|..])
  }

  /** The list has the places below the children from the `j`th on, each once. */
  ghost predicate KidsOnce(x: Link, j: nat, l2r: bool, s: seq<Path>) {
    Distinct(s) && forall p :: p in s <==> BelowFrom(x, j, l2r, p)
  }

  ghost predicate BelowFrom(x: Link, j: nat, l2r: bool, p: Path) {
    exists i :: j <= i < |x.t.kids| && Below(Kid(x, Nth(|x.t.kids|, i, l2r)), p)
  }

  lemma BelowKid(x: Link, k: nat, p: Path)
    requires k < |x.t.kids|
    ensures Below(Kid(x, k), p) <==> x.p <= p && |p| > |x.p| && p[|x.p|] == k && Below(x, p)
  {
    if x.p <= p && |p| > |x.p| {
      assert p[|x.p|..][1..] == p[|x.p| + 1..];
      assert x.p + [k] <= p <==> p[|x.p|] == k;
    }
    if x.p + [k] <= p {
      assert x.p == (x.p + [k])[..|x.p|] == p[..|x.p|];
    }
  }

  lemma KidsApart(x: Link, i: nat, j: nat, p: Path)
    requires i < |x.t.kids| && j < |x.t.kids| && Below(Kid(x, i), p) && Below(Kid(x, j), p)
    ensures i == j
  {
    BelowKid(x, i, p);
    BelowKid(x, j, p);
  }

  lemma {:induction false} PreFromOnce(x: Link, j: nat, l2r: bool)
    requires j <= |x.t.kids|
    ensures KidsOnce(x, j, l2r, PreFrom(x, j, l2r))
    decreases x.t, |x.t.kids| - j
  {
    if j < |x.t.kids| {
      var k := Kid(x, Nth(|x.t.kids|, j, l2r));
      EachOncePre(k, l2r);
      PreFromOnce(x, j + 1, l2r);
      OneKidMore(x, j, l2r, Pre(k, l2r), PreFrom(x, j + 1, l2r));
    }
  }

  lemma OneKidMore(x: Link, j: nat, l2r: bool, a: seq<Path>, b: seq<Path>)
    requires j < |x.t.kids| && KidsOnce(x, j + 1, l2r, b)
    requires Distinct(a) && forall p :: p in a <==> Below(Kid(x, Nth(|x.t.kids|, j, l2r)), p)
    ensures KidsOnce(x, j, l2r, a + b)
  {
    hide Below;
    var n := |x.t.kids|;
    forall p ensures p in a + b <==> BelowFrom(x, j, l2r, p) {
      if BelowFrom(x, j, l2r, p) {
        var i :| j <= i < n && Below(Kid(x, Nth(n, i, l2r)), p);
        if i != j {
          assert BelowFrom(x, j + 1, l2r, p);
        }
      }
      if p in b {
        var i :| j + 1 <= i < n && Below(Kid(x, Nth(n, i, l2r)), p);
      }
    }
    forall p | p in a ensures p !in b {
      if p in b {
        var i :| j + 1 <= i < n && Below(Kid(x, Nth(n, i, l2r)), p);
        KidsApart(x, Nth(n, i, l2r), Nth(n, j, l2r), p);
      }
    }
    DistinctConcat(a, b);
  }

  lemma DistinctConcat(a: seq<Path>, b: seq<Path>)
    requires Distinct(a) && Distinct(b) && forall p :: p in a ==> p !in b
    ensures Distinct(a + b)
  {
    var s := a + b;
    forall i, j | 0 <= i < j < |s| ensures s[i] != s[j] {
      if i < |a| <= j {
        assert s[i] in a && s[j] in b;
      }
    }
  }

  /** Pre-order visits each place below `x` once. */
  lemma {:induction false} EachOncePre(x: Link, l2r: bool)
    ensures EachOnce(x, Pre(x, l2r))
    decreases x.t, |x.t.kids| + 1
  {
    PreFromOnce(x, 0, l2r);
    var s, n := PreFrom(x, 0, l2r), |x.t.kids|;
    forall p ensures p in s <==> p != x.p && Below(x, p) {
      BelowOrSelf(x, l2r, p);
    }
    hide Below, BelowFrom;
    assert Below(x, x.p) by {
      SelfBelow(x);
    }
    DistinctConcat([x.p], s);
  }

  lemma SelfBelow(x: Link)
    ensures Below(x, x.p)
  {
  }

  lemma BelowOrSelf(x: Link, l2r: bool, p: Path)
    ensures BelowFrom(x, 0, l2r, p) <==> p != x.p && Below(x, p)
  {
    var n := |x.t.kids|;
    if BelowFrom(x, 0, l2r, p) {
      var i :| 0 <= i < n && Below(Kid(x, Nth(n, i, l2r)), p);
      BelowKid(x, Nth(n, i, l2r), p);
    }
    if p != x.p && Below(x, p) {
      var k := p[|x.p|];
      BelowKid(x, k, p);
      var i := if l2r then k else n - 1 - k;
      assert Nth(n, i, l2r) == k;
    }
  }

  /** The list has the places at and below `x`, each once. */
  ghost predicate EachOnce(x: Link, s: seq<Path>) {
    Distinct(s) && forall p :: p in s <==> Below(x, p)
  }

  lemma {:induction false} ReverseBag<T>(s: seq<T>)
    ensures multiset(Reverse(s)) == multiset(s)
  {
    if s != [] {
      ReverseBag(s[1..]);
      assert s == [s[0]] + s[1..];
    }
  }

  lemma {:induction false} BagOfDistinct(s: seq<Path>, p: Path)
    requires Distinct(s)
    ensures multiset(s)[p] <= 1
  {
    if s != [] {
      BagOfDistinct(s[1..], p);
      assert s == [s[0]] + s[1..];
      forall y | y in s[1..] ensures y != s[0] {
        var j :| 0 <= j < |s[1..]| && s[1..][j] == y;
      }
    }
  }

  /** With the same places, each as often, in another order. */
  lemma Reordered(x: Link, s: seq<Path>, t: seq<Path>)
    requires EachOnce(x, s) && multiset(t) == multiset(s)
    ensures EachOnce(x, t)
  {
    hide Below;
    forall p ensures p in t <==> p in s {
      assert p in t <==> p in multiset(t);
      assert p in s <==> p in multiset(s);
    }
    forall i, j | 0 <= i < j < |t| ensures t[i] != t[j] {
      BagOfDistinct(s, t[i]);
      assert t == t[..j] + [t[j]] + t[j + 1..];
      assert t[i] in t[..j];
    }
  }

  lemma EachOncePost(x: Link, l2r: bool)
    ensures EachOnce(x, Post(x, l2r))
  {
    hide Below, Pre, Post;
    EachOncePre(x, !l2r);
    MirroredPre(x, l2r);
    ReverseBag(Pre(x, !l2r));
    Reordered(x, Pre(x, !l2r), Post(x, l2r));
  }

  function Bag(level: seq<Link>): multiset<Path> {
    if level == [] then multiset{} else multiset(Pre(level[0], true)) + Bag(level[1..])
  }

  lemma {:induction false} BagConcat(a: seq<Link>, b: seq<Link>)
    ensures Bag(a + b) == Bag(a) + Bag(b)
  {
    hide Pre;
    if a == [] {
      assert a + b == b;
    } else {
      assert (a + b)[1..] == a[1..] + b;
      BagConcat(a[1..], b);
    }
  }

  lemma {:induction false} BagOfKids(x: Link, j: nat)
    requires j <= |x.t.kids|
    ensures multiset(PreFrom(x, j, true)) == Bag(KidsOf(x)[j..])
    decreases |x.t.kids| - j
  {
    hide Pre;
    if j < |x.t.kids| {
      BagOfKids(x, j + 1);
      assert KidsOf(x)[j..][1..] == KidsOf(x)[j + 1..];
    }
  }

  lemma BagOfOne(x: Link)
    ensures multiset(Pre(x, true)) == multiset{x.p} + Bag(KidsOf(x))
  {
    BagOfKids(x, 0);
    assert KidsOf(x)[0..] == KidsOf(x);
  }

  lemma PathsBag(x: Link, rest: seq<Link>)
    ensures multiset(Paths([x] + rest)) == multiset{x.p} + multiset(Paths(rest))
  {
    assert Paths([x] + rest) == [x.p] + Paths(rest);
  }

  lemma {:induction false} BagOfLevel(level: seq<Link>)
    ensures Bag(level) == multiset(Paths(level)) + Bag(AllKids(level))
  {
    hide Pre, Paths, KidsOf;
    if level != [] {
      var x, rest := level[0], level[1..];
      BagOfLevel(rest);
      BagOfOne(x);
      BagConcat(KidsOf(x), AllKids(rest));
      assert level == [x] + rest;
      PathsBag(x, rest);
      hide Bag, AllKids;
      Regroup(multiset{x.p}, Bag(KidsOf(x)), multiset(Paths(rest)), Bag(AllKids(rest)));
    } else {
      NoPaths(level);
    }
  }

  lemma NoPaths(level: seq<Link>)
    requires level == []
    ensures multiset(Paths(level)) == multiset{}
  {
  }

  lemma Regroup<T>(a: multiset<T>, b: multiset<T>, c: multiset<T>, d: multiset<T>)
    ensures (a + b) + (c + d) == (a + c) + (b + d)
  {
  }

  lemma {:induction false} LevelsBag(level: seq<Link>)
    ensures multiset(Levels(level)) == Bag(level)
    decreases Sizes(level)
  {
    if level != [] {
      KidsAreSmaller(level);
      LevelsBag(AllKids(level));
      BagOfLevel(level);
    }
  }

  lemma EachOnceLevels(x: Link)
    ensures EachOnce(x, Levels([x]))
  {
    hide Below, Pre, Levels;
    EachOncePre(x, true);
    LevelsBag([x]);
    assert [x][1..] == [];
    assert Bag([x]) == multiset(Pre(x, true)) + Bag([]);
    Reordered(x, Pre(x, true), Levels([x]));
  }

  // ----- post-order from anywhere

  /** The tree at a place. */
  function Sub(t: Tree, p: Path): Tree
    requires Exists(t, p)
    decreases |p|
  {
    if p == [] then t else Sub(t.kids[p[0]], p[1..])
  }

  function LinkAt(t: Tree, p: Path): Link
    requires Exists(t, p)
  {
    Link(p, Sub(t, p))
  }

  /** The first step of a way that has one. */
  lemma FirstStep(t: Tree, i: nat, q: Path)
    ensures Exists(t, [i] + q) <==> i < |t.kids| && Exists(t.kids[i], q)
    ensures Exists(t, [i] + q) ==> Sub(t, [i] + q) == Sub(t.kids[i], q)
  {
    assert ([i] + q)[1..] == q;
  }

  lemma NoStep(t: Tree)
    ensures Exists(t, []) && Sub(t, []) == t
  {
  }

  /** The last step: to a child of the place that the other steps lead to. */
  lemma {:induction false} LastStep(t: Tree, q: Path, k: nat)
    ensures Exists(t, q + [k]) <==> Exists(t, q) && k < |Sub(t, q).kids|
    ensures Exists(t, q + [k]) ==> Sub(t, q + [k]) == Sub(t, q).kids[k]
    decreases |q|
  {
    hide Exists, Sub;
    if q == [] {
      assert q + [k] == [k] + [];
      FirstStep(t, k, []);
      NoStep(t);
      if k < |t.kids| {
        NoStep(t.kids[k]);
      }
    } else {
      var i, rest := q[0], q[1..];
      assert q == [i] + rest && q + [k] == [i] + (rest + [k]);
      FirstStep(t, i, rest);
      FirstStep(t, i, rest + [k]);
      if i < |t.kids| {
        LastStep(t.kids[i], rest, k);
      }
    }
  }

  /** Up from a place, and down again. */
  lemma UpAndDown(t: Tree, p: Path)
    requires Exists(t, p) && p != []
    ensures Exists(t, p[..|p| - 1]) && p[|p| - 1] < |Sub(t, p[..|p| - 1]).kids|
    ensures Kid(LinkAt(t, p[..|p| - 1]), p[|p| - 1]) == LinkAt(t, p)
  {
    hide Exists, Sub;
    assert p == p[..|p| - 1] + [p[|p| - 1]];
    LastStep(t, p[..|p| - 1], p[|p| - 1]);
  }

  lemma DownFrom(t: Tree, p: Path, k: nat)
    requires Exists(t, p) && k < |Sub(t, p).kids|
    ensures Exists(t, p + [k]) && LinkAt(t, p + [k]) == Kid(LinkAt(t, p), k)
  {
    hide Exists, Sub;
    LastStep(t, p, k);
  }

  /** What is still to come after the place `p`. */
  function After(t: Tree, p: Path, l2r: bool): seq<Path>
    requires Exists(t, p)
    decreases |p|
  {
    if p == [] then [] else
      UpAndDown(t, p);
      var up := LinkAt(t, p[..|p| - 1]);
      PostFrom(up, Nth(|up.t.kids|, p[|p| - 1], l2r) + 1, l2r) + [up.p] + After(t, up.p, l2r)
  }

  /** After a child come its later brothers, the parent, and what comes after that. */
  lemma AfterChild(t: Tree, p: Path, j: nat, l2r: bool)
    requires Exists(t, p) && j < |Sub(t, p).kids|
    ensures var b := p + [Nth(|Sub(t, p).kids|, j, l2r)];
      Exists(t, b) && After(t, b, l2r) == PostFrom(LinkAt(t, p), j + 1, l2r) + [p] + After(t, p, l2r)
  {
    hide Sub, Exists, PostFrom;
    var k := Nth(|Sub(t, p).kids|, j, l2r);
    DownFrom(t, p, k);
    var b := p + [k];
    assert b[..|b| - 1] == p && b[|b| - 1] == k;
    assert Nth(|Sub(t, p).kids|, k, l2r) == j;
  }

  /** The first child of a node: with it goes all that was to come with the node. */
  lemma FirstChild(t: Tree, p: Path, l2r: bool)
    requires Exists(t, p) && Sub(t, p).kids != []
    ensures var k := Nth(|Sub(t, p).kids|, 0, l2r);
      && Exists(t, p + [k])
      && Post(LinkAt(t, p + [k]), l2r) + After(t, p + [k], l2r) == Post(LinkAt(t, p), l2r) + After(t, p, l2r)
  {
    hide Sub, Exists, After;
    var x := LinkAt(t, p);
    var k := Nth(|x.t.kids|, 0, l2r);
    DownFrom(t, p, k);
    AfterChild(t, p, 0, l2r);
    Regrouped(Post(Kid(x, k), l2r), PostFrom(x, 1, l2r), [p], After(t, p, l2r));
  }

  lemma Regrouped<T>(a: seq<T>, b: seq<T>, c: seq<T>, d: seq<T>)
    ensures a + (b + c + d) == a + b + c + d
  {
  }

  /** The next brother: all before it is done. */
  lemma NextBrother(t: Tree, p: Path, l2r: bool, j: nat)
    requires Exists(t, p) && p != [] && Exists(t, p[..|p| - 1])
    requires var n := |Sub(t, p[..|p| - 1]).kids|;
      p[|p| - 1] < n && j == Nth(n, p[|p| - 1], l2r) + 1 && j < n
    ensures var up := p[..|p| - 1]; var b := up + [Nth(|Sub(t, up).kids|, j, l2r)];
      Exists(t, b) && After(t, p, l2r) == Post(LinkAt(t, b), l2r) + After(t, b, l2r)
  {
    hide Sub, Exists, Post;
    var up := p[..|p| - 1];
    var x := LinkAt(t, up);
    var k := Nth(|x.t.kids|, j, l2r);
    DownFrom(t, up, k);
    AfterChild(t, up, j, l2r);
    Regrouped(Post(Kid(x, k), l2r), PostFrom(x, j + 1, l2r), [up], After(t, up, l2r));
  }

  /** No brother left: the parent is next. */
  lemma NoBrother(t: Tree, p: Path, l2r: bool)
    requires Exists(t, p) && p != [] && Exists(t, p[..|p| - 1])
    requires var n := |Sub(t, p[..|p| - 1]).kids|; p[|p| - 1] < n && Nth(n, p[|p| - 1], l2r) + 1 == n
    ensures After(t, p, l2r) == [p[..|p| - 1]] + After(t, p[..|p| - 1], l2r)
  {
  }
}
