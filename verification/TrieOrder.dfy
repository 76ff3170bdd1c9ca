/** What an ordered walk over a trie has to list. */
module TrieOrder {
  import opened Basics
  import opened TriePath
  import opened TrieShape

  /** One call of the callback: the key from the start node on, and its value. */
  datatype Visit = Visit(key: seq<Byte>, value: Value)

  type Visits = seq<Visit>

  function PathOf(start: Path, v: Visit): Path {
    start + Nibbles(v.key)
  }

  /** The paths of `low` itself and of what lies below its first `upto` children. */
  predicate InPart(low: Path, upto: int, q: Path) {
    low <= q && (q == low || q[|low|] < upto)
  }

  ghost predicate Listed(start: Path, q: Path, vs: Visits) {
    exists i :: 0 <= i < |vs| && PathOf(start, vs[i]) == q
  }

  ghost predicate Sound(c: map<Path, Value>, start: Path, low: Path, upto: int, vs: Visits) {
    forall i :: 0 <= i < |vs| ==>
      && PathOf(start, vs[i]) in c && c[PathOf(start, vs[i])] == vs[i].value
      && InPart(low, upto, PathOf(start, vs[i]))
  }

  ghost predicate Ascending(start: Path, vs: Visits) {
    forall i, j :: 0 <= i < j < |vs| ==> Before(PathOf(start, vs[i]), PathOf(start, vs[j]))
  }

  ghost predicate Complete(c: map<Path, Value>, start: Path, low: Path, upto: int, vs: Visits) {
    forall q :: q in c && InPart(low, upto, q) ==> Listed(start, q, vs)
  }

  /** All of that part, in order, each path once. */
  ghost predicate Listing(c: map<Path, Value>, start: Path, low: Path, upto: int, vs: Visits) {
    Sound(c, start, low, upto, vs) && Ascending(start, vs) && Complete(c, start, low, upto, vs)
  }

  /** What is not listed comes after the last one listed. */
  ghost predicate CompleteToLast(c: map<Path, Value>, start: Path, low: Path, vs: Visits) {
    vs != [] && forall q :: q in c && low <= q ==> Listed(start, q, vs) || Before(PathOf(start, vs[|vs| - 1]), q)
  }

  /** The first few of them, in order. */
  ghost predicate CutListing(c: map<Path, Value>, start: Path, low: Path, vs: Visits) {
    Sound(c, start, low, 16, vs) && Ascending(start, vs) && CompleteToLast(c, start, low, vs)
  }

  // ----- the node itself

  lemma SelfListed(c: map<Path, Value>, start: Path, low: Path, v: Visit)
    requires PathOf(start, v) == low && low in c && c[low] == v.value
    ensures Listing(c, start, low, 0, [v]) && CutListing(c, start, low, [v])
  {
    hide PathOf;
    assert PathOf(start, [v][0]) == low;
    assert Listed(start, low, [v]);
    forall q | q in c && low <= q && q != low ensures Before(low, q) {
      PrefixBefore(low, q);
    }
  }

  lemma NothingListed(c: map<Path, Value>, start: Path, low: Path)
    requires low !in c
    ensures Listing(c, start, low, 0, [])
  {
  }

  // ----- one child more

  lemma KidMissing(c: map<Path, Value>, start: Path, low: Path, i: Nib, vs: Visits)
    requires Listing(c, start, low, i, vs)
    requires forall q :: q in c ==> !(Kid(low, i) <= q)
    ensures Listing(c, start, low, i + 1, vs)
  {
    hide PathOf, Listed, Ascending, InPart;
    forall q | q in c && InPart(low, i + 1, q) ensures Listed(start, q, vs) {
      InPartExtends(low, i + 1, q);
      PartOrKid(low, i, q);
    }
    forall x | 0 <= x < |vs| ensures InPart(low, i + 1, PathOf(start, vs[x])) {
      WiderPart(low, i, PathOf(start, vs[x]));
    }
  }

  lemma PartOrKid(low: Path, i: Nib, q: Path)
    requires low <= q
    ensures InPart(low, i + 1, q) <==> InPart(low, i, q) || Kid(low, i) <= q
    ensures InPart(low, 16, q)
  {
    if Kid(low, i) <= q {
      assert q[|low|] == Kid(low, i)[|low|];
    }
  }

  /** What lies in the part before a child comes before what lies below it. */
  lemma PartBeforeKid(low: Path, i: Nib, a: Path, b: Path)
    requires InPart(low, i, a) && Kid(low, i) <= b
    ensures Before(a, b) && low <= b
  {
    if a == low {
      KidExtends(low, i);
      assert low == Kid(low, i)[..|low|] == b[..|low|];
      PrefixBefore(low, b);
    } else {
      assert Kid(low, a[|low|]) <= a;
      KidsBefore(low, a[|low|], i, a, b);
      KidExtends(low, i);
      assert low == Kid(low, i)[..|low|] == b[..|low|];
    }
  }

  lemma AscendingJoin(c: map<Path, Value>, start: Path, low: Path, i: Nib, a: Visits, b: Visits)
    requires Sound(c, start, low, i, a) && Sound(c, start, Kid(low, i), 16, b)
    requires Ascending(start, a) && Ascending(start, b)
    ensures Ascending(start, a + b)
  {
    hide PathOf, Before;
    var all := a + b;
    forall x, y | 0 <= x < y < |all| ensures Before(PathOf(start, all[x]), PathOf(start, all[y])) {
      if y < |a| {
        assert Before(PathOf(start, a[x]), PathOf(start, a[y]));
      } else if x >= |a| {
        assert Before(PathOf(start, b[x - |a|]), PathOf(start, b[y - |a|]));
      } else {
        var v := b[y - |a|];
        PartBeforeKid(low, i, PathOf(start, a[x]), PathOf(start, v));
      }
    }
  }

  lemma SoundJoin(c: map<Path, Value>, start: Path, low: Path, i: Nib, a: Visits, b: Visits)
    requires Sound(c, start, low, i, a) && Sound(c, start, Kid(low, i), 16, b)
    ensures Sound(c, start, low, i + 1, a + b) && Sound(c, start, low, 16, a + b)
  {
    hide PathOf, InPart;
    var all := a + b;
    forall x | 0 <= x < |all|
      ensures InPart(low, i + 1, PathOf(start, all[x])) && InPart(low, 16, PathOf(start, all[x]))
      ensures PathOf(start, all[x]) in c && c[PathOf(start, all[x])] == all[x].value
    {
      var q := PathOf(start, all[x]);
      if x < |a| {
        assert all[x] == a[x];
        assert InPart(low, i, q);
        WiderPart(low, i, q);
      } else {
        assert all[x] == b[x - |a|];
        assert InPart(Kid(low, i), 16, q);
        KidsPart(low, i, q);
      }
    }
  }

  lemma WiderPart(low: Path, i: Nib, q: Path)
    requires InPart(low, i, q)
    ensures InPart(low, i + 1, q) && InPart(low, 16, q)
  {
  }

  lemma KidsPart(low: Path, i: Nib, q: Path)
    requires InPart(Kid(low, i), 16, q)
    ensures Kid(low, i) <= q && InPart(low, i + 1, q) && InPart(low, 16, q)
  {
    PartBeforeKid(low, i, low, q);
    PartOrKid(low, i, q);
  }

  lemma ListedLeft(start: Path, q: Path, a: Visits, b: Visits)
    requires Listed(start, q, a)
    ensures Listed(start, q, a + b)
  {
    hide PathOf;
    var i :| 0 <= i < |a| && PathOf(start, a[i]) == q;
    assert (a + b)[i] == a[i];
  }

  lemma ListedRight(start: Path, q: Path, a: Visits, b: Visits)
    requires Listed(start, q, b)
    ensures Listed(start, q, a + b)
  {
    hide PathOf;
    var i :| 0 <= i < |b| && PathOf(start, b[i]) == q;
    assert (a + b)[|a| + i] == b[i];
  }

  /** A child's listing after the listing of what comes before it. */
  lemma KidListed(c: map<Path, Value>, start: Path, low: Path, i: Nib, a: Visits, b: Visits)
    requires Listing(c, start, low, i, a) && Listing(c, start, Kid(low, i), 16, b)
    ensures Listing(c, start, low, i + 1, a + b)
  {
    AscendingJoin(c, start, low, i, a, b);
    SoundJoin(c, start, low, i, a, b);
    hide PathOf, InPart, Listed, Sound, Ascending;
    forall q | q in c && InPart(low, i + 1, q) ensures Listed(start, q, a + b) {
      InPartExtends(low, i + 1, q);
      PartOrKid(low, i, q);
      if InPart(low, i, q) {
        ListedLeft(start, q, a, b);
      } else {
        WholePart(Kid(low, i), q);
        ListedRight(start, q, a, b);
      }
    }
  }

  lemma InPartExtends(low: Path, upto: int, q: Path)
    requires InPart(low, upto, q)
    ensures low <= q
  {
  }

  lemma WholePart(low: Path, q: Path)
    ensures InPart(low, 16, q) <==> low <= q
  {
  }

  /** A child's listing that was broken off. */
  lemma KidCut(c: map<Path, Value>, start: Path, low: Path, i: Nib, a: Visits, b: Visits)
    requires Listing(c, start, low, i, a) && CutListing(c, start, Kid(low, i), b)
    ensures CutListing(c, start, low, a + b)
  {
    AscendingJoin(c, start, low, i, a, b);
    SoundJoin(c, start, low, i, a, b);
    hide PathOf, InPart, Listed, Ascending;
    var all := a + b;
    assert all[|all| - 1] == b[|b| - 1];
    var last := PathOf(start, b[|b| - 1]);
    assert InPart(Kid(low, i), 16, last);
    WholePart(Kid(low, i), last);
    hide Sound;
    forall q | q in c && low <= q ensures Listed(start, q, all) || Before(last, q) {
      PartOrKid(low, i, q);
      if InPart(low, i, q) {
        ListedLeft(start, q, a, b);
      } else if Kid(low, i) <= q {
        if Listed(start, q, b) {
          ListedRight(start, q, a, b);
        }
      } else {
        LaterKid(low, i, last, q);
      }
    }
  }

  lemma LaterKid(low: Path, i: Nib, a: Path, q: Path)
    requires Kid(low, i) <= a && low <= q && !InPart(low, i, q) && !(Kid(low, i) <= q)
    ensures Before(a, q)
  {
    assert Kid(low, q[|low|]) <= q;
    KidsBefore(low, i, q[|low|], a, q);
  }

  // ----- the callback's answers

  /** The callback, shown its calls so far, wanted more after each of these. */
  ghost predicate AllKept(keep: Visits -> bool, seen: Visits, vs: Visits) {
    forall first: Visits :: first != [] && first <= vs ==> keep(seen + first)
  }

  /** It wanted more after each of these but the last. */
  ghost predicate KeptToLast(keep: Visits -> bool, seen: Visits, vs: Visits) {
    vs != [] && AllKept(keep, seen, vs[..|vs| - 1]) && !keep(seen + vs)
  }

  lemma KeptJoin(keep: Visits -> bool, seen: Visits, a: Visits, b: Visits)
    requires AllKept(keep, seen, a)
    ensures AllKept(keep, seen + a, b) ==> AllKept(keep, seen, a + b)
    ensures KeptToLast(keep, seen + a, b) ==> KeptToLast(keep, seen, a + b)
  {
    KeptJoinAll(keep, seen, a, b);
    if b != [] {
      KeptJoinAll(keep, seen, a, b[..|b| - 1]);
      assert (a + b)[..|a + b| - 1] == a + b[..|b| - 1];
      assert seen + (a + b) == seen + a + b;
    }
  }

  lemma KeptJoinAll(keep: Visits -> bool, seen: Visits, a: Visits, b: Visits)
    requires AllKept(keep, seen, a)
    ensures AllKept(keep, seen + a, b) ==> AllKept(keep, seen, a + b)
  {
    if AllKept(keep, seen + a, b) {
      forall first: Visits | first != [] && first <= a + b ensures keep(seen + first) {
        if |first| <= |a| {
          assert first <= a;
        } else {
          var rest := first[|a|..];
          assert rest <= b && seen + first == seen + a + rest;
        }
      }
    }
  }

  // ----- the key buffer

  function NibbleAt(b: seq<Byte>, k: nat): Nib
    requires k < 2 * |b|
  {
    if k % 2 == 0 then Hi(b[k / 2]) else Lo(b[k / 2])
  }

  /** The nibbles at the front of the buffer. */
  predicate Spelled(b: seq<Byte>, s: Path) {
    |s| <= 2 * |b| && forall k: nat :: k < |s| ==> NibbleAt(b, k) == s[k]
  }

  lemma {:induction false} SpelledBytes(b: seq<Byte>, s: Path)
    requires Spelled(b, s) && |s| % 2 == 0
    ensures Nibbles(b[..|s| / 2]) == s
    decreases |s|
  {
    hide Hi, Lo;
    if s == [] {
      assert b[..0] == [];
    } else {
      var t, h := s[..|s| - 2], |s| / 2;
      SpelledBytes(b, t);
      assert b[..h][..h - 1] == b[..|t| / 2] && b[..h][h - 1] == b[h - 1];
      assert NibbleAt(b, |s| - 2) == s[|s| - 2] && NibbleAt(b, |s| - 1) == s[|s| - 1];
    }
  }

  /** Writing the next nibble: a front nibble clears the back one, a back nibble keeps the front one. */
  lemma SpelledOneMore(b: seq<Byte>, s: Path, i: Nib)
    requires Spelled(b, s) && |s| < 2 * |b|
    ensures |s| % 2 == 0 ==> Spelled(b[|s| / 2 := Join(i, 0)], s + [i])
    ensures |s| % 2 == 1 ==> Spelled(b[|s| / 2 := Join(Hi(b[|s| / 2]), i)], s + [i])
  {
    var x := if |s| % 2 == 0 then Join(i, 0) else Join(Hi(b[|s| / 2]), i);
    JoinSplits(i, 0);
    JoinSplits(Hi(b[|s| / 2]), i);
    hide Hi, Lo, Join;
    var b2, t := b[|s| / 2 := x], s + [i];
    forall k: nat | k < |t| ensures NibbleAt(b2, k) == t[k] {
      if k < |s| {
        assert NibbleAt(b, k) == s[k];
      }
    }
  }

  lemma SpelledLess(b: seq<Byte>, s: Path, i: Nib)
    requires Spelled(b, s + [i])
    ensures Spelled(b, s)
  {
    forall k: nat | k < |s| ensures NibbleAt(b, k) == s[k] {
      assert NibbleAt(b, k) == (s + [i])[k];
    }
  }

  // ----- the same in terms of keys

  /** These are keys below `key` in the map, with their values, in order and each once. */
  ghost predicate Faithful(c: map<Path, Value>, key: seq<Byte>, vs: Visits) {
    && (forall i :: 0 <= i < |vs| ==> Nibbles(key + vs[i].key) in c && c[Nibbles(key + vs[i].key)] == vs[i].value)
    && (forall i, j :: 0 <= i < j < |vs| ==> Before(vs[i].key, vs[j].key))
  }

  /** In strictly ascending order no key comes twice. */
  lemma VisitedOnce(c: map<Path, Value>, key: seq<Byte>, vs: Visits, i: nat, j: nat)
    requires Faithful(c, key, vs) && i < j < |vs|
    ensures vs[i].key != vs[j].key
  {
    NotBeforeItself(vs[i].key);
  }

  ghost predicate Visited(k: seq<Byte>, vs: Visits) {
    exists i :: 0 <= i < |vs| && vs[i].key == k
  }

  /** All keys below `key` are visited. */
  ghost predicate Whole(c: map<Path, Value>, key: seq<Byte>, vs: Visits) {
    forall k :: Nibbles(key + k) in c ==> Visited(k, vs)
  }

  /** The keys that are not visited come after the last one that is. */
  ghost predicate WholeToLast(c: map<Path, Value>, key: seq<Byte>, vs: Visits) {
    vs != [] && forall k :: Nibbles(key + k) in c ==> Visited(k, vs) || Before(vs[|vs| - 1].key, k)
  }

  lemma FaithfulKeys(c: map<Path, Value>, key: seq<Byte>, low: Path, upto: int, vs: Visits)
    requires Sound(c, Nibbles(key), low, upto, vs) && Ascending(Nibbles(key), vs)
    ensures Faithful(c, key, vs)
  {
    hide Nibbles, Before, InPart;
    forall i | 0 <= i < |vs| ensures Nibbles(key + vs[i].key) == PathOf(Nibbles(key), vs[i]) {
      NibblesConcat(key, vs[i].key);
    }
    forall i, j | 0 <= i < j < |vs| ensures Before(vs[i].key, vs[j].key) {
      assert Before(PathOf(Nibbles(key), vs[i]), PathOf(Nibbles(key), vs[j]));
      BeforeCommonPrefix(Nibbles(key), Nibbles(vs[i].key), Nibbles(vs[j].key));
      SameOrder(vs[i].key, vs[j].key);
    }
  }

  lemma VisitedKey(key: seq<Byte>, k: seq<Byte>, vs: Visits)
    requires Listed(Nibbles(key), Nibbles(key + k), vs)
    ensures Visited(k, vs)
  {
    hide Nibbles;
    var i :| 0 <= i < |vs| && PathOf(Nibbles(key), vs[i]) == Nibbles(key + k);
    NibblesConcat(key, k);
    assert (Nibbles(key) + Nibbles(vs[i].key))[|Nibbles(key)|..] == (Nibbles(key) + Nibbles(k))[|Nibbles(key)|..];
    NibblesInjective(vs[i].key, k);
  }

  lemma WholeKeys(c: map<Path, Value>, key: seq<Byte>, vs: Visits)
    requires Listing(c, Nibbles(key), Nibbles(key), 16, vs)
    ensures Faithful(c, key, vs) && Whole(c, key, vs)
  {
    FaithfulKeys(c, key, Nibbles(key), 16, vs);
    hide Nibbles, Sound, Ascending, InPart, Listed, Faithful, Visited;
    forall k | Nibbles(key + k) in c ensures Visited(k, vs) {
      NibblesConcat(key, k);
      WholePart(Nibbles(key), Nibbles(key + k));
      VisitedKey(key, k, vs);
    }
  }

  lemma WholeKeysToLast(c: map<Path, Value>, key: seq<Byte>, vs: Visits)
    requires CutListing(c, Nibbles(key), Nibbles(key), vs)
    ensures Faithful(c, key, vs) && WholeToLast(c, key, vs)
  {
    FaithfulKeys(c, key, Nibbles(key), 16, vs);
    hide Nibbles, Sound, Ascending, InPart, Listed, Faithful, Visited, Before;
    forall k | Nibbles(key + k) in c ensures Visited(k, vs) || Before(vs[|vs| - 1].key, k) {
      NibblesConcat(key, k);
      var last := vs[|vs| - 1].key;
      if Listed(Nibbles(key), Nibbles(key + k), vs) {
        VisitedKey(key, k, vs);
      } else {
        BeforeCommonPrefix(Nibbles(key), Nibbles(last), Nibbles(k));
        SameOrder(last, k);
      }
    }
  }
}
