/** The three orders of visiting a tree, told by comparing two places. */
module TreeSorted {
  import opened TreeOrder

  /** Where the ways to two places part, the one to `p` goes to the earlier child, from the left or from the right. */
  ghost predicate Ahead(p: Path, q: Path, l2r: bool) {
    exists k :: 0 <= k < |p| && k < |q| && p[..k] == q[..k] && if l2r then p[k] < q[k] else q[k] < p[k]
  }

  /** A node goes before those below it, and brothers go by direction. */
  ghost predicate PreBefore(p: Path, q: Path, l2r: bool) {
    p < q || Ahead(p, q, l2r)
  }

  /** A node goes after those below it, and brothers go by direction. */
  ghost predicate PostBefore(p: Path, q: Path, l2r: bool) {
    q < p || Ahead(p, q, l2r)
  }

  /** Higher levels go first, and each from left to right. */
  ghost predicate LevelBefore(p: Path, q: Path) {
    |p| < |q| || (|p| == |q| && Ahead(p, q, true))
  }

  ghost predicate PreSorted(s: seq<Path>, l2r: bool) {
    forall i, j :: 0 <= i < j < |s| ==> PreBefore(s[i], s[j], l2r)
  }

  ghost predicate PostSorted(s: seq<Path>, l2r: bool) {
    forall i, j :: 0 <= i < j < |s| ==> PostBefore(s[i], s[j], l2r)
  }

  ghost predicate LevelSorted(s: seq<Path>) {
    forall i, j :: 0 <= i < j < |s| ==> LevelBefore(s[i], s[j])
  }

  // ----- pre-order

  lemma PreConcat(a: seq<Path>, b: seq<Path>, l2r: bool)
    requires PreSorted(a, l2r) && PreSorted(b, l2r)
    requires forall p, q :: p in a && q in b ==> PreBefore(p, q, l2r)
    ensures PreSorted(a + b, l2r)
  {
    hide PreBefore;
    var s := a + b;
    forall i, j | 0 <= i < j < |s| ensures PreBefore(s[i], s[j], l2r) {
      if i < |a| <= j {
        assert s[i] in a && s[j] in b;
      }
    }
  }

  /** What lies below different children. */
  lemma KidsAhead(x: Link, i: nat, j: nat, l2r: bool, p: Path, q: Path)
    requires i < j < |x.t.kids|
    requires Below(Kid(x, Nth(|x.t.kids|, i, l2r)), p) && Below(Kid(x, Nth(|x.t.kids|, j, l2r)), q)
    ensures Ahead(p, q, l2r)
  {
    var n := |x.t.kids|;
    BelowKid(x, Nth(n, i, l2r), p);
    BelowKid(x, Nth(n, j, l2r), q);
    hide Below;
    var k := |x.p|;
    assert p[..k] == x.p == q[..k];
  }

  lemma {:induction false} PreIsSorted(x: Link, l2r: bool)
    ensures PreSorted(Pre(x, l2r), l2r)
    decreases x.t, |x.t.kids| + 1
  {
    var s := PreFrom(x, 0, l2r);
    PreFromSorted(x, 0, l2r);
    PreFromOnce(x, 0, l2r);
    forall q | q in s ensures PreBefore(x.p, q, l2r) {
      BelowOrSelf(x, l2r, q);
      ProperlyBelow(x, q);
    }
    hide PreSorted, PreBefore, PreFrom;
    OneSorted(x.p, l2r);
    PreConcat([x.p], s, l2r);
  }

  lemma OneSorted(p: Path, l2r: bool)
    ensures PreSorted([p], l2r)
  {
  }

  lemma ProperlyBelow(x: Link, q: Path)
    requires Below(x, q) && q != x.p
    ensures x.p < q
  {
  }

  lemma {:induction false} PreFromSorted(x: Link, j: nat, l2r: bool)
    requires j <= |x.t.kids|
    ensures PreSorted(PreFrom(x, j, l2r), l2r)
    decreases x.t, |x.t.kids| - j
  {
    if j < |x.t.kids| {
      var kid := Kid(x, Nth(|x.t.kids|, j, l2r));
      PreIsSorted(kid, l2r);
      PreFromSorted(x, j + 1, l2r);
      hide PreSorted, Below, Pre;
      EachOncePre(kid, l2r);
      PreFromOnce(x, j + 1, l2r);
      forall p, q | p in Pre(kid, l2r) && q in PreFrom(x, j + 1, l2r) ensures PreBefore(p, q, l2r) {
        var i :| j + 1 <= i < |x.t.kids| && Below(Kid(x, Nth(|x.t.kids|, i, l2r)), q);
        KidsAhead(x, j, i, l2r, p, q);
      }
      PreConcat(Pre(kid, l2r), PreFrom(x, j + 1, l2r), l2r);
    }
  }

  // ----- post-order

  lemma {:induction false} ReverseAt<T>(s: seq<T>, k: nat)
    requires k < |s|
    ensures Reverse(s)[k] == s[|s| - 1 - k]
  {
    if k < |s| - 1 {
      ReverseAt(s[1..], k);
    }
  }

  /** Pre-order from the other side, backwards. */
  lemma PostIsSorted(x: Link, l2r: bool)
    ensures PostSorted(Post(x, l2r), l2r)
  {
    var pre, post := Pre(x, !l2r), Post(x, l2r);
    MirroredPre(x, l2r);
    PreIsSorted(x, !l2r);
    hide Pre, Post, Reverse;
    forall i, j | 0 <= i < j < |post| ensures PostBefore(post[i], post[j], l2r) {
      ReverseAt(pre, i);
      ReverseAt(pre, j);
      Turned(post[j], post[i], l2r);
    }
  }

  lemma Turned(p: Path, q: Path, l2r: bool)
    requires PreBefore(p, q, !l2r)
    ensures PostBefore(q, p, l2r)
  {
    if Ahead(p, q, !l2r) {
      var k :| 0 <= k < |p| && k < |q| && p[..k] == q[..k] && if !l2r then p[k] < q[k] else q[k] < p[k];
      assert q[..k] == p[..k];
    }
  }

  // ----- level order

  /** One level from left to right. */
  ghost predicate Row(level: seq<Link>, n: nat) {
    && (forall i :: 0 <= i < |level| ==> |level[i].p| == n)
    && (forall i, j :: 0 <= i < j < |level| ==> Ahead(level[i].p, level[j].p, true))
  }

  /** The parent of a node of the next level. */
  lemma {:induction false} ParentOf(level: seq<Link>, y: Link) returns (i: nat, k: nat)
    requires y in AllKids(level)
    ensures i < |level| && k < |level[i].t.kids| && y == Kid(level[i], k)
  {
    if y in KidsOf(level[0]) {
      k :| 0 <= k < |KidsOf(level[0])| && KidsOf(level[0])[k] == y;
      i := 0;
    } else {
      i, k := ParentOf(level[1..], y);
      i := i + 1;
    }
  }

  lemma AheadBelow(p: Path, q: Path, a: nat, b: nat)
    requires |p| == |q| && Ahead(p, q, true)
    ensures Ahead(p + [a], q + [b], true)
  {
    var k :| 0 <= k < |p| && k < |q| && p[..k] == q[..k] && p[k] < q[k];
    assert (p + [a])[..k] == p[..k] && (q + [b])[..k] == q[..k];
  }

  lemma {:induction false} NextRow(level: seq<Link>, n: nat)
    requires Row(level, n)
    ensures Row(AllKids(level), n + 1)
  {
    if level != [] {
      var x, rest := level[0], level[1..];
      var a, b := KidsOf(x), AllKids(rest);
      assert Row(rest, n);
      NextRow(rest, n);
      hide AllKids;
      assert AllKids(level) == a + b by {
        KidsOfFirst(level);
      }
      KidsInRow(x);
      forall i, j | 0 <= i < |a| && 0 <= j < |b| ensures Ahead(a[i].p, b[j].p, true) {
        var m, k := ParentOf(rest, b[j]);
        assert rest[m] == level[m + 1];
        AheadBelow(x.p, rest[m].p, i, k);
      }
      hide Ahead, KidsOf;
      RowConcat(a, b, n + 1);
    }
  }

  lemma KidsOfFirst(level: seq<Link>)
    requires level != []
    ensures AllKids(level) == KidsOf(level[0]) + AllKids(level[1..])
  {
  }

  lemma KidsInRow(x: Link)
    ensures Row(KidsOf(x), |x.p| + 1)
  {
    var a := KidsOf(x);
    forall i, j | 0 <= i < j < |a| ensures Ahead(a[i].p, a[j].p, true) {
      var k := |x.p|;
      assert a[i].p[..k] == x.p == a[j].p[..k];
    }
  }

  lemma RowConcat(a: seq<Link>, b: seq<Link>, n: nat)
    requires Row(a, n) && Row(b, n)
    requires forall i, j :: 0 <= i < |a| && 0 <= j < |b| ==> Ahead(a[i].p, b[j].p, true)
    ensures Row(a + b, n)
  {
    hide Ahead;
  }

  /** One level before all that lies deeper. */
  lemma LevelFirst(level: seq<Link>, n: nat, b: seq<Path>)
    requires Row(level, n) && LevelSorted(b) && forall p :: p in b ==> |p| > n
    ensures LevelSorted(Paths(level) + b) && forall p :: p in Paths(level) + b ==> |p| >= n
  {
    hide Ahead;
    var a := Paths(level);
    var s := a + b;
    forall i | 0 <= i < |s| ensures if i < |a| then |s[i]| == n else |s[i]| > n {
      if i >= |a| {
        assert s[i] == b[i - |a|] && b[i - |a|] in b;
      }
    }
    forall i, j | 0 <= i < j < |s| ensures LevelBefore(s[i], s[j]) {
      if j < |a| {
        assert s[i] == level[i].p && s[j] == level[j].p;
      } else if i >= |a| {
        assert s[i] == b[i - |a|] && s[j] == b[j - |a|];
      }
    }
  }

  lemma {:induction false} LevelsSorted(level: seq<Link>, n: nat)
    requires Row(level, n)
    ensures LevelSorted(Levels(level))
    ensures forall p :: p in Levels(level) ==> |p| >= n
    decreases Sizes(level)
  {
    hide Levels, Row, LevelSorted, Sizes, AllKids;
    LevelsStep(level);
    if level != [] {
      KidsAreSmaller(level);
      NextRow(level, n);
      LevelsSorted(AllKids(level), n + 1);
      LevelFirst(level, n, Levels(AllKids(level)));
    } else {
      NoneSorted(Levels(level));
    }
  }

  lemma NoneSorted(s: seq<Path>)
    requires s == []
    ensures LevelSorted(s)
  {
  }

  lemma LevelsStep(level: seq<Link>)
    ensures Levels(level) == if level == [] then [] else Paths(level) + Levels(AllKids(level))
  {
    if level != [] {
      KidsAreSmaller(level);
    }
  }

  lemma LevelOrderIsSorted(x: Link)
    ensures LevelSorted(Levels([x]))
  {
    assert Row([x], |x.p|);
    LevelsSorted([x], |x.p|);
  }
}
