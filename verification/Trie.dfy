/** The nibble trie, changed in place. */
module Trie {
  import opened Basics
  import opened TriePath
  import opened TrieShape
  import opened TrieOrder
  import opened TrieSame
  import opened TrieComplete

  class Trie {
    const rt: Node
    /** Every node of the trie under the path that leads to it. */
    ghost var at: Nodes

    /** What the nodes hold now. */
    ghost function Now(): View
      reads this, at.Values
    {
      map p | p in at :: Cell(at[p].n, at[p].v)
    }

    ghost predicate Valid()
      reads this, at.Values
    {
      Linked(at, Now(), rt) && Pruned(at, Now())
    }

    /** The map that the trie stands for, keyed by path. */
    ghost function Stored(): map<Path, Value>
      reads this, at.Values
    {
      Content(Now())
    }

    constructor ()
      ensures Valid() && fresh(rt) && at == map[[] := rt] && Stored() == map[]
    {
      rt := new Node();
      at := map[[] := rt];
      new;
      assert Now() == map[[] := Cell(Childless(), None)];
    }

    /** The node for a key, if every step of the way is there. */
    method GetNode(key: seq<Byte>) returns (r: Node?)
      requires Linked(at, Now(), rt)
      ensures r == if Nibbles(key) in at then at[Nibbles(key)] else null
    {
      hide CellOk, Hi, Lo, Kid, Nibbles;
      var n := rt;
      var i := 0;
      NoNibbles(key);
      while i < |key|
        invariant i <= |key| && Nibbles(key[..i]) in at && n == at[Nibbles(key[..i])]
      {
        ghost var p := Nibbles(key[..i]);
        var c := key[i];
        OneByteOn(key, i);
        KidFacts(at, Now(), rt, p, Hi(c));
        if n.n[Hi(c)] == null {
          NotBelow(at, Kid(p, Hi(c)), Nibbles(key));
          return null;
        }
        n := n.n[Hi(c)];
        KidFacts(at, Now(), rt, Kid(p, Hi(c)), Lo(c));
        if n.n[Lo(c)] == null {
          NotBelow(at, Kid(Kid(p, Hi(c)), Lo(c)), Nibbles(key));
          return null;
        }
        n := n.n[Lo(c)];
        i := i + 1;
      }
      assert key[..i] == key;
      return n;
    }

    method Get(key: seq<Byte>) returns (r: Option<Value>)
      requires Linked(at, Now(), rt)
      ensures r == if Nibbles(key) in Stored() then Some(Stored()[Nibbles(key)]) else None
    {
      if key == [] {
        RootHasNoValue(at, Now(), rt);
        return None;
      }
      var n := GetNode(key);
      if n == null {
        return None;
      }
      return n.v;
    }

    // ----- insertion

    /** Sets one child pointer of `n`. */
    method SetKid(n: Node, ghost p: Path, i: Nib, m: Node?)
      requires Apart(at) && p in at && n == at[p] && |n.n| == 16
      modifies n`n
      ensures n.n == old(n.n)[i := m]
      ensures Now() == old(Now())[p := Cell(old(n.n)[i := m], n.v)]
    {
      SameButOne(at, p, n);
      hide Apart;
      n.n := n.n[i := m];
    }

    /** Hangs a fresh node below `n`. */
    method AddKid(n: Node, ghost p: Path, i: Nib) returns (m: Node)
      requires Linked(at, Now(), rt) && p in at && n == at[p] && Kid(p, i) !in at && |p| + 1 < 2 * MAX_KEY_LEN
      modifies this`at, n`n
      ensures fresh(m) && at == old(at)[Kid(p, i) := m]
      ensures Linked(at, Now(), rt) && Stored() == old(Stored())
    {
      hide CellOk, Content, PrefixClosed, Apart, KidOf, Kid;
      ghost var was := Now();
      KidFacts(at, was, rt, p, i);
      m := new Node();
      SetKid(n, p, i, m);
      at := at[Kid(p, i) := m];
      assert Now() == was[p := Cell(was[p].n[i := m], was[p].v)][Kid(p, i) := Cell(Childless(), None)];
      LinkedAfterAdd(old(at), was, rt, p, i, m, at, Now());
    }

    /** One step down, making the node when it is not there. */
    method StepDown(n: Node, ghost p: Path, i: Nib, ghost was: Nodes) returns (m: Node)
      requires Linked(at, Now(), rt) && p in at && n == at[p] && |p| + 1 < 2 * MAX_KEY_LEN && Grown(was, at, p)
      modifies this`at, n`n
      ensures Linked(at, Now(), rt) && Stored() == old(Stored())
      ensures Kid(p, i) in at && m == at[Kid(p, i)] && Grown(was, at, Kid(p, i))
      ensures fresh(at.Values - old(at.Values)) && old(at.Values) <= at.Values
    {
      hide CellOk, Content, PrefixClosed, Apart, Grown;
      KidFacts(at, Now(), rt, p, i);
      KidExtends(p, i);
      GrownFurther(was, at, p, Kid(p, i));
      if n.n[i] == null {
        GrownByOne(was, at, Kid(p, i), n);
        m := AddKid(n, p, i);
        AddedValues(old(at), Kid(p, i), m);
        GrownByOne(was, old(at), Kid(p, i), m);
      } else {
        m := n.n[i];
      }
    }

    lemma AddedValues(was: Nodes, q: Path, m: Node)
      requires q !in was
      ensures was[q := m].Values == was.Values + {m}
    {
      var now := was[q := m];
      forall x ensures x in now.Values <==> x in was.Values || x == m {
        if x in was.Values {
          var p :| p in was && was[p] == x;
          assert p in now && now[p] == x;
        }
        if x == m {
          assert q in now && now[q] == m;
        }
      }
    }

    /** Two steps down for one byte. */
    method MoveDownNode(n: Node, ghost p: Path, c: Byte, ghost was: Nodes) returns (m: Node)
      requires Linked(at, Now(), rt) && p in at && n == at[p] && |p| + 2 < 2 * MAX_KEY_LEN && Grown(was, at, p)
      modifies this`at, at.Values
      ensures Linked(at, Now(), rt) && Stored() == old(Stored())
      ensures var q := Kid(Kid(p, Hi(c)), Lo(c)); q in at && m == at[q] && Grown(was, at, q)
      ensures fresh(at.Values - old(at.Values)) && old(at.Values) <= at.Values
    {
      hide Linked, Grown, Content, Hi, Lo, Kid;
      m := StepDown(n, p, Hi(c), was);
      m := StepDown(m, Kid(p, Hi(c)), Lo(c), was);
    }

    /** The node for a key, with every step of the way made where it is missing. */
    method MakeNode(key: seq<Byte>) returns (n: Node)
      requires Linked(at, Now(), rt) && |key| < MAX_KEY_LEN
      modifies this`at, at.Values
      ensures Linked(at, Now(), rt) && Stored() == old(Stored())
      ensures Nibbles(key) in at && n == at[Nibbles(key)] && Grown(old(at), at, Nibbles(key))
      ensures fresh(at.Values - old(at.Values))
    {
      hide CellOk, Content, PrefixClosed, Apart, Hi, Lo, Kid, Nibbles;
      RootIsThere(at, Now(), rt);
      NothingGrown(at, []);
      hide Linked, Grown;
      n := rt;
      var i := 0;
      NoNibbles(key);
      while i < |key|
        invariant i <= |key| && Nibbles(key[..i]) in at && n == at[Nibbles(key[..i])]
        invariant Linked(at, Now(), rt) && Stored() == old(Stored()) && Grown(old(at), at, Nibbles(key[..i]))
        invariant fresh(at.Values - old(at.Values))
      {
        ghost var p := Nibbles(key[..i]);
        OneByteOn(key, i);
        n := MoveDownNode(n, p, key[i], old(at));
        i := i + 1;
      }
      assert key[..i] == key;
    }

    /** Stores a value; says whether that replaced one. */
    method Insert(key: seq<Byte>, v: Option<Value>) returns (r: int)
      requires Valid()
      modifies this`at, at.Values
      ensures Valid() && fresh(at.Values - old(at.Values))
      ensures r == -1 <==> key == [] || v == None || |key| >= MAX_KEY_LEN
      ensures r == -1 ==> Stored() == old(Stored())
      ensures r != -1 ==> Stored() == old(Stored())[Nibbles(key) := v.value]
      ensures r != -1 ==> r == if Nibbles(key) in old(Stored()) then 1 else 0
    {
      hide CellOk, PrefixClosed, Apart, Hi, Lo, Kid, Nibbles, Grown, LeafOk;
      if key == [] {
        return -1;
      }
      if v == None || |key| >= MAX_KEY_LEN {
        return -1;
      }
      var n := MakeNode(key);
      ghost var q, mid := Nibbles(key), Now();
      r := if n.v.Some? then 1 else 0;
      LinkedAfterSet(at, mid, rt, q, v.value);
      n.v := v;
      assert Now() == mid[q := Cell(mid[q].n, v)] by {
        assert Apart(at);
        SameButOne(at, q, n);
      }
      PrunedAfterSet(old(at), old(Now()), at, Now(), rt, q);
    }

    // ----- removal

    /** Whether a node has neither children nor a value. */
    method IsEmptyLeaf(m: Node) returns (empty: bool)
      requires |m.n| == 16
      ensures empty <==> m.n == Childless() && m.v == None
    {
      var i := 0;
      while i < 16 && m.n[i] == null
        invariant 0 <= i <= 16 && forall j :: 0 <= j < i ==> m.n[j] == null
      {
        i := i + 1;
      }
      return i >= 16 && m.v == None;
    }

    /** Cuts the child `i` of `n` off if it is an empty leaf. */
    method RemoveEmptyLeaf(n: Node, ghost p: Path, i: Nib) returns (gone: bool)
      requires Linked(at, Now(), rt) && p in at && n == at[p] && Kid(p, i) in at
      requires PrunedBut(at, Now(), Kid(p, i))
      modifies this`at, n`n
      ensures Linked(at, Now(), rt) && Stored() == old(Stored())
      ensures gone ==> at == old(at) - {Kid(p, i)} && PrunedBut(at, Now(), p)
      ensures !gone ==> at == old(at) && Pruned(at, Now())
    {
      hide Content, PrefixClosed, PrunedBut, Pruned, LeafOk, IsLeaf, Kid, CellOk, Apart;
      ghost var was, k := Now(), Kid(p, i);
      KidFacts(at, was, rt, p, i);
      var m := n.n[i];
      assert CellOk(at, was, k);
      KidFacts(at, was, rt, k, 0);
      gone := IsEmptyLeaf(m);
      ChildlessIsLeaf(at, was, k);
      if gone {
        SetKid(n, p, i, null);
        at := at - {k};
        assert Now() == was[p := Cell(was[p].n[i := null], was[p].v)] - {k};
        LinkedAfterDrop(old(at), was, rt, p, i, at, Now());
        PrunedAfterDrop(old(at), was, p, i, at, Now());
      } else {
        OccupiedIsOk(at, was, k);
        PrunedButNothing(at, was, k);
      }
    }

    lemma OccupiedIsOk(at: Nodes, view: View, k: Path)
      requires k in view && (!IsLeaf(at, k) || view[k].v.Some?)
      ensures LeafOk(at, view, k)
    {
    }

    /** Cuts off the back node of a byte below `n`, and then the front node, where they are empty leaves. */
    method RemoveEmptyByteLeaf(n: Node, ghost p: Path, c: Byte, ghost was: Nodes) returns (r: int)
      requires Linked(at, Now(), rt) && p in at && n == at[p]
      requires Kid(p, Hi(c)) in at && Kid(Kid(p, Hi(c)), Lo(c)) in at
      requires PrunedBut(at, Now(), Kid(Kid(p, Hi(c)), Lo(c))) && Shrunk(was, at, Kid(Kid(p, Hi(c)), Lo(c)))
      modifies this`at, at.Values
      ensures Linked(at, Now(), rt) && Stored() == old(Stored())
      ensures r == 0 || r == 1
      ensures if r == 0 then Pruned(at, Now()) else PrunedBut(at, Now(), p)
      ensures Shrunk(was, at, p)
    {
      hide Content, PrunedBut, Pruned, PrefixClosed, CellOk, Shrunk, Hi, Lo;
      var fi, bi := Hi(c), Lo(c);
      ghost var f, b := Kid(p, fi), Kid(Kid(p, fi), bi);
      TwoShrunk(was, at, p, f, b);
      KidFacts(at, Now(), rt, p, fi);
      hide Kid, Linked;
      var gone := RemoveEmptyLeaf(n.n[fi], f, bi);
      if !gone {
        return 0;
      }
      gone := RemoveEmptyLeaf(n, p, fi);
      return if gone then 1 else 0;
    }

    lemma TwoShrunk(was: Nodes, mid: Nodes, p: Path, f: Path, b: Path)
      requires Shrunk(was, mid, b) && p <= f <= b && p != f && f != b
      ensures Shrunk(was, mid, p) && Shrunk(was, mid - {b}, p) && Shrunk(was, mid - {b} - {f}, p)
    {
      ShrunkByOne(was, mid, p, b, b);
    }

    /** Takes the value of a key away below `n`; the result 1 says that `n` may now be an empty leaf. */
    method RemoveKey(n: Node, ghost p: Path, key: seq<Byte>) returns (r: int)
      requires Linked(at, Now(), rt) && Pruned(at, Now()) && p in at && n == at[p]
      modifies this`at, at.Values
      ensures Linked(at, Now(), rt) && Shrunk(old(at), at, p)
      ensures r == -1 || r == 0 || r == 1
      ensures r == -1 <==> p + Nibbles(key) !in old(Stored())
      ensures Stored() == old(Stored()) - {p + Nibbles(key)}
      ensures if r == 1 then PrunedBut(at, Now(), p) else Pruned(at, Now())
      decreases |key|
    {
      hide Content, PrunedBut, Pruned, PrefixClosed, CellOk, Hi, Lo, Kid, LeafOk, Nibbles, Shrunk;
      ghost var q := p + Nibbles(key);
      ShrunkFrom(at, p);
      if |key| > 0 {
        var fi, bi := Hi(key[0]), Lo(key[0]);
        ghost var f, b := Kid(p, fi), Kid(Kid(p, fi), bi);
        FirstByte(p, key);
        KidFacts(at, Now(), rt, p, fi);
        if n.n[fi] != null {
          KidFacts(at, Now(), rt, f, bi);
          if n.n[fi].n[bi] != null {
            r := RemoveKey(n.n[fi].n[bi], b, key[1..]);
            ShrunkKeeps(old(at), at, b, p);
            ShrunkKeeps(old(at), at, b, f);
            ShrunkKeeps(old(at), at, b, b);
            if r == 1 {
              ShrunkValues(old(at), at, b);
              r := RemoveEmptyByteLeaf(n, p, key[0], old(at));
            } else {
              ShrunkAbove(old(at), at, p, b);
            }
            return;
          }
          MissingBelow(at, Now(), rt, b, q);
          return -1;
        }
        MissingBelow(at, Now(), rt, f, q);
        return -1;
      } else {
        NoNibbles(key);
        assert q == p;
        ValueInMap(Now(), p);
        if n.v.Some? {
          ghost var was := Now();
          LinkedAfterClear(at, was, rt, p, was[p := Cell(was[p].n, None)]);
          PrunedAfterClear(at, was, p);
          n.v := None;
          assert Now() == was[p := Cell(was[p].n, None)] by {
            SameButOne(at, p, n);
          }
          return 1;
        }
        return -1;
      }
    }

    lemma ValueInMap(view: View, p: Path)
      requires p in view
      ensures p in Content(view) <==> view[p].v.Some?
    {
    }

    lemma ShrunkFrom(at: Nodes, p: Path)
      ensures Shrunk(at, at, p)
    {
    }

    lemma ShrunkValues(was: Nodes, at: Nodes, p: Path)
      requires Shrunk(was, at, p)
      ensures at.Values <= was.Values
    {
    }

    lemma ShrunkKeeps(was: Nodes, at: Nodes, b: Path, p: Path)
      requires Shrunk(was, at, b) && p <= b && p in was
      ensures p in at && at[p] == was[p]
    {
    }

    lemma ShrunkAbove(was: Nodes, at: Nodes, p: Path, b: Path)
      requires Shrunk(was, at, b) && p <= b
      ensures Shrunk(was, at, p)
    {
    }

    lemma FirstByte(p: Path, key: seq<Byte>)
      requires key != []
      ensures var f, b := Kid(p, Hi(key[0])), Kid(Kid(p, Hi(key[0])), Lo(key[0]));
        && p + Nibbles(key) == b + Nibbles(key[1..])
        && p <= f <= b <= p + Nibbles(key)
    {
      hide Hi, Lo, Nibbles, Kid;
      NibblesFirst(key);
      TwoStepsOn(p, Hi(key[0]), Lo(key[0]), Nibbles(key[1..]));
    }

    /** Nothing is stored below a missing node. */
    lemma MissingBelow(at: Nodes, view: View, rt: Node, p: Path, q: Path)
      requires Linked(at, view, rt) && p !in at && p <= q
      ensures q !in Content(view) && Content(view) - {q} == Content(view)
    {
      NotBelow(at, p, q);
    }

    /** Removes a key; says whether it was there. */
    method Remove(key: seq<Byte>) returns (r: int)
      requires Valid()
      modifies this`at, at.Values
      ensures Valid() && at.Values <= old(at.Values)
      ensures Stored() == old(Stored()) - {Nibbles(key)}
      ensures r == if Nibbles(key) in old(Stored()) then 1 else 0
    {
      hide CellOk, LeafOk, Nibbles, Content;
      r := RemoveKey(rt, [], key);
      assert [] + Nibbles(key) == Nibbles(key);
      if r == 1 {
        RootIsOk(at, Now());
      }
      return if r == -1 then 0 else 1;
    }

    lemma RootIsOk(at: Nodes, view: View)
      requires PrunedBut(at, view, []) && [] in view
      ensures Pruned(at, view)
    {
    }

    lemma SameButOne(at: Nodes, q: Path, n: Node)
      requires Apart(at) && q in at && at[q] == n
      ensures forall p :: p in at && p != q ==> at[p] != n
    {
    }

    // ----- iteration

    /** Writes the nibble of the next step into the key buffer. */
    method PutNibble(buf: array<Byte>, bitoffset: nat, i: Nib, ghost s: Path)
      requires bitoffset == 4 * |s| && |s| < 2 * buf.Length && Spelled(buf[..], s)
      modifies buf
      ensures Spelled(buf[..], s + [i])
    {
      hide Spelled, Hi, Join;
      var k := bitoffset / 8;
      ghost var was := buf[..];
      SpelledOneMore(was, s, i);
      if bitoffset % 8 == 0 {
        buf[k] := Join(i, 0);
        assert buf[..] == was[k := Join(i, 0)];
      } else {
        buf[k] := Join(Hi(buf[k]), i);
        assert buf[..] == was[k := Join(Hi(was[k]), i)];
      }
    }

    /** The callback for `n` itself, if a key ends there. */
    method VisitSelf(n: Node, keep: Visits -> bool, buf: array<Byte>, bitoffset: nat, seen: Visits,
                     ghost start: Path, ghost s: Path) returns (go: bool, vs: Visits)
      requires Linked(at, Now(), rt) && start + s in at && n == at[start + s] && |start| % 2 == 0
      requires bitoffset == 4 * |s| && buf.Length == MAX_KEY_LEN + 1 && Spelled(buf[..], s)
      ensures go ==> Listing(Stored(), start, start + s, 0, vs) && AllKept(keep, seen, vs)
      ensures !go ==> CutListing(Stored(), start, start + s, vs) && KeptToLast(keep, seen, vs)
    {
      hide Content, PrefixClosed, Apart, Spelled, Listing, CutListing, AllKept, KeptToLast, Kid, PathOf;
      ghost var low, c := start + s, Stored();
      assert CellOk(at, Now(), low);
      ValueInMap(Now(), low);
      if n.v.Some? {
        assert bitoffset % 8 == 0;
        SpelledBytes(buf[..], s);
        var visit := Visit(buf[..bitoffset / 8], n.v.value);
        ValueOf(Now(), low);
        assert buf[..][..|s| / 2] == buf[..bitoffset / 8];
        PathOfVisit(start, s, visit);
        SelfListed(c, start, low, visit);
        vs := [visit];
        if !keep(seen + vs) {
          OneRefused(keep, seen, visit);
          return false, vs;
        }
        OneKept(keep, seen, visit);
        return true, vs;
      }
      NothingListed(c, start, low);
      NoneKept(keep, seen);
      return true, [];
    }

    /** Walks what lies below `n` in order; `seen` are the callback's calls so far. */
    method IterateInternal(n: Node, keep: Visits -> bool, buf: array<Byte>, bitoffset: nat, seen: Visits,
                           ghost start: Path, ghost s: Path) returns (r: int, vs: Visits)
      requires Linked(at, Now(), rt) && start + s in at && n == at[start + s] && |start| % 2 == 0
      requires bitoffset == 4 * |s| && buf.Length == MAX_KEY_LEN + 1 && Spelled(buf[..], s)
      modifies buf
      ensures Spelled(buf[..], s)
      ensures r == 0 || r == 1
      ensures r == 1 ==> Listing(Stored(), start, start + s, 16, vs) && AllKept(keep, seen, vs)
      ensures r == 0 ==> CutListing(Stored(), start, start + s, vs) && KeptToLast(keep, seen, vs)
      decreases 2 * MAX_KEY_LEN - |s|
    {
      hide Content, Linked, CellOk, Spelled, Listing, CutListing, AllKept, KeptToLast, Kid;
      ghost var low, c, view := start + s, Stored(), Now();
      var go;
      go, vs := VisitSelf(n, keep, buf, bitoffset, seen, start, s);
      if !go {
        return 0, vs;
      }
      var i := 0;
      while i < 16
        invariant 0 <= i <= 16 && Spelled(buf[..], s) && Now() == view
        invariant Listing(c, start, low, i, vs) && AllKept(keep, seen, vs)
      {
        KidFacts(at, view, rt, low, i);
        if n.n[i] != null {
          KidIsDeep(at, view, rt, low, i);
          KidIsLonger(start, s, i);
          if bitoffset / 8 == MAX_KEY_LEN {
            assert false;
          }
          PutNibble(buf, bitoffset, i, s);
          var more;
          r, more := IterateInternal(n.n[i], keep, buf, bitoffset + 4, seen + vs, start, s + [i]);
          SpelledLess(buf[..], s, i);
          KeptJoin(keep, seen, vs, more);
          if r <= 0 {
            KidCut(c, start, low, i, vs, more);
            return r, vs + more;
          }
          KidListed(c, start, low, i, vs, more);
          vs := vs + more;
        } else {
          NoneBelow(at, view, rt, Kid(low, i));
          KidMissing(c, start, low, i, vs);
        }
        i := i + 1;
      }
      return 1, vs;
    }

    lemma PathOfVisit(start: Path, s: Path, v: Visit)
      requires Nibbles(v.key) == s
      ensures PathOf(start, v) == start + s
    {
    }

    lemma ValueOf(view: View, p: Path)
      requires p in view && view[p].v.Some?
      ensures p in Content(view) && Content(view)[p] == view[p].v.value
    {
    }

    lemma KidIsLonger(start: Path, s: Path, i: Nib)
      ensures Kid(start + s, i) == start + (s + [i])
    {
    }

    lemma NoneBelow(at: Nodes, view: View, rt: Node, p: Path)
      requires Linked(at, view, rt) && p !in at
      ensures forall q :: q in Content(view) ==> !(p <= q)
    {
      forall q | q in Content(view) ensures !(p <= q) {
        if p <= q {
          NotBelow(at, p, q);
        }
      }
    }

    lemma OneRefused(keep: Visits -> bool, seen: Visits, v: Visit)
      requires !keep(seen + [v])
      ensures KeptToLast(keep, seen, [v])
    {
    }

    lemma OneKept(keep: Visits -> bool, seen: Visits, v: Visit)
      requires keep(seen + [v])
      ensures AllKept(keep, seen, [v])
    {
      forall first: Visits | first != [] && first <= [v] ensures keep(seen + first) {
        assert first == [v];
      }
    }

    lemma NoneKept(keep: Visits -> bool, seen: Visits)
      ensures AllKept(keep, seen, [])
    {
    }

    /** Walks the keys that extend a prefix, until the callback wants no more. */
    method Iterate(key: seq<Byte>, keep: Visits -> bool) returns (r: int, vs: Visits)
      requires Valid()
      ensures r == 1 || r == 0 || r == -EINVAL
      ensures r == -EINVAL <==> key != [] && forall k :: Nibbles(key + k) !in Stored()
      ensures r == -EINVAL ==> vs == []
      ensures Faithful(Stored(), key, vs)
      ensures r == 1 ==> Whole(Stored(), key, vs) && AllKept(keep, [], vs)
      ensures r == 0 ==> WholeToLast(Stored(), key, vs) && KeptToLast(keep, [], vs)
    {
      hide Nibbles, Linked, Pruned, Listing, CutListing, AllKept, KeptToLast, WholeToLast, Whole, Spelled, IsLeaf;
      var buf := new Byte[MAX_KEY_LEN + 1];
      ghost var p := Nibbles(key);
      var n := GetNode(key);
      NodeIffKey(at, Now(), rt, key);
      if n == null {
        return -EINVAL, [];
      }
      NothingSpelled(buf[..]);
      assert p + [] == p;
      r, vs := IterateInternal(n, keep, buf, 0, [], p, []);
      if r == 1 {
        WholeKeys(Stored(), key, vs);
      } else {
        WholeKeysToLast(Stored(), key, vs);
      }
    }

    lemma NothingSpelled(b: seq<Byte>)
      ensures Spelled(b, [])
    {
    }

    /** The node of a key is there exactly when some stored key extends it. */
    lemma NodeIffKey(at: Nodes, view: View, rt: Node, key: seq<Byte>)
      requires Linked(at, view, rt) && Pruned(at, view)
      ensures Nibbles(key) in at <==> key == [] || exists k :: Nibbles(key + k) in Content(view)
    {
      hide Nibbles, Linked, Pruned, IsLeaf, Content;
      var p := Nibbles(key);
      RootIsThere(at, view, rt);
      NoNibbles(key);
      if p in at && key != [] {
        var q := SomeKeyBelow(at, view, rt, p);
        var k := RestOfKey(at, view, rt, key, q);
        assert Nibbles(key + k) in Content(view);
      }
      if p !in at {
        NoneBelow(at, view, rt, p);
        forall k ensures Nibbles(key + k) !in Content(view) {
          NibblesConcat(key, k);
        }
      }
    }

    // ----- equality

    /** Compares what lies below two nodes at the same path. */
    method EqualInternal(t1: Trie, n0: Node, n1: Node, cmp: Compare, ghost p: Path) returns (same: bool)
      requires Linked(at, Now(), rt) && p in at && n0 == at[p]
      requires Linked(t1.at, t1.Now(), t1.rt) && p in t1.at && n1 == t1.at[p]
      ensures same <==> SamePart(cmp, Now(), t1.Now(), p, 16)
      decreases 2 * MAX_KEY_LEN - |p|
    {
      hide PrefixClosed, Apart, Kid, SamePart;
      ghost var v0, v1 := Now(), t1.Now();
      assert CellOk(at, v0, p);
      SelfSame(cmp, v0, v1, p);
      if n0.v.Some? && n1.v.Some? {
        if 0 == cmp(n0.v.value, n1.v.value) {
          WholeDiffers(cmp, v0, v1, p, 0);
          return false;
        }
      } else if n0.v.Some? || n1.v.Some? {
        WholeDiffers(cmp, v0, v1, p, 0);
        return false;
      }
      hide SameAt, CellOk;
      var i := 0;
      while i < 16
        invariant 0 <= i <= 16 && SamePart(cmp, v0, v1, p, i)
      {
        KidFacts(at, v0, rt, p, i);
        KidFacts(t1.at, v1, t1.rt, p, i);
        OneMoreKid(cmp, v0, v1, p, i);
        if n0.n[i] != null && n1.n[i] != null {
          KidIsDeep(at, v0, rt, p, i);
          var below := EqualInternal(t1, n0.n[i], n1.n[i], cmp, Kid(p, i));
          if !below {
            WholeDiffers(cmp, v0, v1, p, i + 1);
            return false;
          }
        } else if n0.n[i] != null || n1.n[i] != null {
          OnlyOneBelow(cmp, v0, v1, Kid(p, i));
          WholeDiffers(cmp, v0, v1, p, i + 1);
          return false;
        } else {
          NeitherBelow(cmp, v0, v1, at, t1.at, Kid(p, i));
        }
        i := i + 1;
      }
      return true;
    }

    lemma KidIsDeep(at: Nodes, view: View, rt: Node, p: Path, i: Nib)
      requires Linked(at, view, rt) && Kid(p, i) in at
      ensures |Kid(p, i)| == |p| + 1 < 2 * MAX_KEY_LEN
    {
      assert CellOk(at, view, Kid(p, i));
    }

    /** Whether two tries stand for the same map, as the comparison sees it. */
    method Equal(t1: Trie, cmp: Compare) returns (same: bool)
      requires Valid() && t1.Valid()
      ensures same <==> SameMap(cmp, Stored(), t1.Stored())
    {
      hide CellOk, Content, Apart, LeafOk, SamePart, SameMap;
      same := EqualInternal(t1, rt, t1.rt, cmp, []);
      if same {
        SameNodesSameMap(cmp, Now(), t1.Now());
      } else if SameMap(cmp, Stored(), t1.Stored()) {
        SameMapSameNodes(cmp, Now(), t1.Now(), at, t1.at, rt, t1.rt);
      }
    }

    // ----- completion

    /** The number of children, the last of them, and another one if there is. */
    method CountKids(n: Node) returns (cnt: nat, j: Nib, ghost other: Nib)
      requires |n.n| == 16
      ensures cnt == 0 ==> n.n == Childless()
      ensures cnt >= 1 ==> n.n[j] != null
      ensures cnt == 1 ==> forall k: Nib :: n.n[k] != null ==> k == j
      ensures cnt > 1 ==> n.n[other] != null && other != j
    {
      cnt, j, other := 0, 0, 0;
      var i := 0;
      while i < 16
        invariant 0 <= i <= 16
        invariant cnt == 0 ==> forall k :: 0 <= k < i ==> n.n[k] == null
        invariant cnt >= 1 ==> j < i && n.n[j] != null
        invariant cnt == 1 ==> forall k :: 0 <= k < i && n.n[k] != null ==> k == j
        invariant cnt > 1 ==> n.n[other] != null && other < j
      {
        if n.n[i] != null {
          other := j;
          cnt, j := cnt + 1, i;
        }
        i := i + 1;
      }
    }

    /** One turn of the search: 0 or 1 when it ends at `n`, -1 when all keys go on with the byte `c`. */
    method NextByte(n: Node, ghost prefix: seq<Byte>, ghost e: seq<Byte>) returns (r: int, c: Byte, next: Node)
      requires Linked(at, Now(), rt) && Pruned(at, Now()) && Reached(at, Now(), prefix, e)
      requires n == at[Nibbles(prefix + e)]
      ensures r == 0 || r == 1 || r == -1
      ensures r != -1 ==> Found(Stored(), prefix, e, r)
      ensures r == -1 ==> Reached(at, Now(), prefix, e + [c]) && Common(Stored(), prefix, e + [c])
      ensures r == -1 ==> next == at[Nibbles(prefix + (e + [c]))]
    {
      hide Nibbles, Linked, Pruned, Content, IsLeaf, Kid, Common, Hi, Lo, Join, AllBelow, SomeKey;
      ghost var view, p := Now(), Nibbles(prefix + e);
      assert p in at;
      KidsOf(at, view, rt, p);
      next := n;
      c := 0;
      var cnt, hi, other := CountKids(n);
      if cnt > 1 || (cnt == 1 && n.v.Some?) {
        FrontBranch(at, view, rt, prefix, e, hi, other);
        return 0, c, next;
      } else if cnt == 0 {
        FrontLeaf(at, view, rt, prefix, e);
        assert n.v.Some?;
        return 1, c, next;
      }
      next := n.n[hi];
      ghost var f := Kid(p, hi);
      KidFacts(at, view, rt, p, hi);
      KidsOf(at, view, rt, f);
      FrontNodeGoesOn(at, view, p, hi);
      assert next.v == None;
      hide Reached, Found;
      var lo;
      cnt, lo, other := CountKids(next);
      if cnt > 1 {
        BackBranch(at, view, rt, prefix, e, hi, lo, other);
        return 0, c, next;
      } else if cnt == 0 {
        assert false;
      }
      c := Join(hi, lo);
      KidFacts(at, view, rt, f, lo);
      next := next.n[lo];
      JoinSplits(hi, lo);
      OneByteMore(at, view, rt, prefix, e, c);
      return -1, c, next;
    }

    /** Writes what all keys with a prefix go on with: 1 for one key, 0 for several, 2 for none. */
    method AutoComplete(prefix: seq<Byte>, buf: array<Byte>) returns (r: int, ghost m: nat)
      requires Valid() && buf.Length > 0 && (prefix == [] ==> Stored() != map[])
      modifies buf
      ensures r == 0 || r == 1 || r == 2 || r == -EINVAL
      ensures r == 2 <==> !SomeKey(Stored(), prefix)
      ensures r == -EINVAL <==> TooLong(Stored(), prefix, buf.Length)
      ensures r == 0 || r == 1 ==> m < buf.Length && buf[m] == 0 && Longest(Stored(), prefix, buf[..m])
      ensures r == 1 ==> OnlyKey(Stored(), prefix, buf[..m])
      ensures r == 0 ==> TwoKeys(Stored(), prefix)
    {
      hide Nibbles, Linked, Pruned, Longest, OnlyKey, TwoKeys, SomeKey, Content, Common;
      ghost var view, c := Now(), Stored();
      var n := GetNode(prefix);
      SomeKeyIffNode(at, view, rt, prefix);
      if n == null {
        return 2, 0;
      }
      StartsThere(at, view, prefix);
      hide Reached, Found, TooLong;
      var bi := 0;
      assert buf[..bi] == [] && prefix + buf[..bi] == prefix;
      while true
        invariant bi < buf.Length && Reached(at, view, prefix, buf[..bi])
        invariant n == at[Nibbles(prefix + buf[..bi])]
        invariant Now() == view
        decreases buf.Length - bi
      {
        ghost var e := buf[..bi];
        var byte;
        r, byte, n := NextByte(n, prefix, e);
        if r != -1 {
          break;
        }
        if bi >= buf.Length - 1 {
          NoRoom(at, view, prefix, e + [byte], buf.Length);
          return -EINVAL, 0;
        }
        buf[bi] := byte;
        bi := bi + 1;
        assert buf[..bi] == e + [byte];
      }
      FoundFits(c, prefix, buf[..bi], r, buf.Length);
      ghost var found := buf[..bi];
      buf[bi] := 0;
      assert buf[..bi] == found;
      m := bi;
    }

    lemma SomeKeyIffNode(at: Nodes, view: View, rt: Node, prefix: seq<Byte>)
      requires Linked(at, view, rt) && Pruned(at, view) && (prefix == [] ==> Content(view) != map[])
      ensures Nibbles(prefix) in at <==> SomeKey(Content(view), prefix)
      ensures Nibbles(prefix) !in at ==> forall room :: !TooLong(Content(view), prefix, room)
    {
      hide Nibbles, Linked, Pruned, Content;
      NodeIffKey(at, view, rt, prefix);
      if prefix == [] {
        var q :| q in Content(view);
        NoNibbles([]);
        var k := RestOfKey(at, view, rt, [], q);
        assert Nibbles(prefix + k) in Content(view);
      }
    }

    lemma NoRoom(at: Nodes, view: View, prefix: seq<Byte>, e: seq<Byte>, room: nat)
      requires Reached(at, view, prefix, e) && Common(Content(view), prefix, e) && |e| >= room
      ensures TooLong(Content(view), prefix, room) && SomeKey(Content(view), prefix)
    {
    }

    lemma FoundFits(c: map<Path, Value>, prefix: seq<Byte>, e: seq<Byte>, r: int, room: nat)
      requires Found(c, prefix, e, r) && |e| < room
      ensures !TooLong(c, prefix, room) && (r == 0 || r == 1) && Longest(c, prefix, e)
      ensures r == 1 ==> OnlyKey(c, prefix, e)
      ensures r == 0 ==> TwoKeys(c, prefix)
    {
      hide Longest, OnlyKey, TwoKeys;
      FitsIsNotTooLong(c, prefix, e, room);
    }
  }
}
