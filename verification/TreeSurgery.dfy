/** The pointer surgery of unlinking a chunk from a tree bin. */
module TreeSurgery {
  import opened Words
  import opened Tries
  import opened TreeRep

  /** Where a chunk sits, and how removing it there removes it from the whole. */
  lemma {:induction false} Locate(t: Trie, x: nat) returns (path: Path)
    requires Holds(t, x)
    ensures OnPath(t, path) && Sub(t, path).Node? && x in Sub(t, path).ring
    ensures Remove(t, x) == Graft(t, path, RemoveHere(Sub(t, path), x))
  {
    if x in t.ring {
      path := [];
    } else if Holds(t.left, x) {
      var rest := Locate(t.left, x);
      path := [false] + rest;
      assert path[1..] == rest;
    } else {
      var rest := Locate(t.right, x);
      path := [true] + rest;
      assert path[1..] == rest;
    }
  }

  lemma {:induction false} SubWF(t: Trie, path: Path, lo: nat, h: nat) returns (slo: nat, sh: nat)
    requires WF(t, lo, h) && OnPath(t, path) && Sub(t, path).Node?
    ensures WF(Sub(t, path), slo, sh)
    decreases path
  {
    if path == [] {
      slo, sh := lo, h;
    } else {
      assert h > 0 by { assert (if path[0] then t.right else t.left).Node?; }
      if path[0] { slo, sh := SubWF(t.right, path[1..], lo + Pow2(h - 1), h - 1); }
      else { slo, sh := SubWF(t.left, path[1..], lo, h - 1); }
    }
  }

  /** The chunk that points to a position is not itself below that position. */
  lemma {:induction false} UpOutside(m: Memory, t: Trie, p: nat, up: Parent, i: nat, path: Path, lo: nat, h: nat)
    requires Rep(m, t, p, up, i) && WF(t, lo, h) && OnPath(t, path) && path != []
    ensures var u := UpAt(m, t, p, up, path);
      u.InNode? && u.addr in m && Holds(t, u.addr) && !Holds(Sub(t, path), u.addr)
    decreases path
  {
    var d := path[0];
    var child, cp := if d then t.right else t.left, if d then m[p].child1 else m[p].child0;
    SubHolds(child, path[1..]);
    assert p in t.ring;
    if path[1..] != [] {
      assert child.Node? && h > 0;
      UpOutside(m, child, cp, InNode(p), i, path[1..], if d then lo + Pow2(h - 1) else lo, h - 1);
    }
  }

  /** The slot through which a path is entered points to it, and the sibling slot does not. */
  lemma {:induction false} SlotAt(m: Memory, t: Trie, p: nat, up: Parent, i: nat, path: Path, lo: nat, h: nat)
    requires Rep(m, t, p, up, i) && WF(t, lo, h) && OnPath(t, path) && path != [] && Sub(t, path).Node?
    ensures var u := UpAt(m, t, p, up, path);
      var q := PtrAt(m, t, p, path);
      && u.InNode? && u.addr in m
      && (if path[|path| - 1] then m[u.addr].child1 == q && m[u.addr].child0 != q else m[u.addr].child0 == q)
    ensures PtrAt(m, t, p, path) != p
    decreases path
  {
    var d := path[0];
    var child, cp := if d then t.right else t.left, if d then m[p].child1 else m[p].child0;
    RepAt(m, t, p, up, i, path);
    SubHolds(child, path[1..]);
    var q := PtrAt(m, t, p, path);
    assert q in Sub(t, path).ring;
    assert p in t.ring;
    if path[1..] == [] {
      assert Holds(child, q);
      assert t.left.Node? ==> m[p].child0 in t.left.ring;
    } else {
      assert child.Node? && h > 0;
      SlotAt(m, child, cp, InNode(p), i, path[1..], if d then lo + Pow2(h - 1) else lo, h - 1);
    }
  }

  // ----- rings

  /** Memory after joining the ring neighbours f and b of an unlinked chunk. */
  ghost function Joined(m: Memory, f: nat, b: nat): Memory
    requires f in m && b in m
  {
    var m1 := m[f := m[f].(bk := b)];
    m1[b := m1[b].(fd := f)]
  }

  lemma {:induction false} WithoutIndex(s: seq<nat>, j: nat)
    requires j < |s| && NoDup(s)
    ensures Without(s, s[j]) == s[..j] + s[j + 1..]
  {
    if j > 0 {
      assert s[j] == s[1..][j - 1];
      WithoutIndex(s[1..], j - 1);
      assert s[..j] == [s[0]] + s[1..][..j - 1];
      assert s[1..][j..] == s[j + 1..];
    }
  }

  lemma Distinct(s: seq<nat>, i: nat, j: nat)
    requires NoDup(s) && i < |s| && j < |s|
    ensures s[i] == s[j] ==> i == j
  {
  }

  /** Unlinking a chained chunk. */
  lemma RingUnchain(m: Memory, ring: seq<nat>, x: nat, size: nat, up: Parent, i: nat, j: nat)
    requires NoDup(ring) && Ring(m, ring, size, up, i) && 0 < j < |ring| && ring[j] == x
    ensures x in m && m[x].fd in m && m[x].bk in m && m[x].bk != x && m[x].fd in ring && m[x].bk in ring
    ensures Ring(Joined(m, m[x].fd, m[x].bk), Without(ring, x), size, up, i)
    ensures Without(ring, x)[0] == ring[0]
  {
    hide Without, NoDup;
    assert Member(m, ring, j, size, up, i);
    assert Member(m, ring, Succ(j, |ring|), size, up, i);
    assert Member(m, ring, Pred(j, |ring|), size, up, i);
    Distinct(ring, j, Pred(j, |ring|));
    var f, b := m[x].fd, m[x].bk;
    var m' := Joined(m, f, b);
    WithoutIndex(ring, j);
    var r := Without(ring, x);
    forall k: nat | k < |r|
      ensures Member(m', r, k, size, up, i)
    {
      var o := if k < j then k else k + 1;
      assert r[k] == ring[o];
      assert Member(m, ring, o, size, up, i);
      Distinct(ring, o, Succ(j, |ring|));
      Distinct(ring, o, Pred(j, |ring|));
    }
  }

  /** Unlinking the head of a longer ring: its predecessor heads what remains. */
  lemma RingBehead(m: Memory, ring: seq<nat>, size: nat, up: Parent, i: nat)
    requires NoDup(ring) && Ring(m, ring, size, up, i) && |ring| > 1
    ensures var x := ring[0];
      && x in m && m[x].fd in m && m[x].bk in m && m[x].bk == ring[|ring| - 1] != x && m[x].fd in ring
      && Ring(Joined(m, m[x].fd, m[x].bk), RingWithout(ring, x), size, NoParent, i)
      && RingWithout(ring, x)[0] == m[x].bk
      && m[m[x].bk].child0 == 0 && m[m[x].bk].child1 == 0
  {
    var n := |ring|;
    var x := ring[0];
    assert Member(m, ring, 0, size, up, i);
    assert Member(m, ring, 1, size, up, i);
    assert Member(m, ring, n - 1, size, up, i);
    var m' := Joined(m, m[x].fd, m[x].bk);
    var r := RingWithout(ring, x);
    forall k: nat | k < |r|
      ensures Member(m', r, k, size, NoParent, i)
    {
      var o := if k == 0 then n - 1 else k;
      assert r[k] == ring[o];
      assert Member(m, ring, o, size, up, i);
      if k > 0 { assert Member(m, ring, k - 1, size, up, i); }
    }
  }

  // ----- promoting a replacement

  /** Memory after chunk r takes over the parent and children of x. */
  ghost function Promoted(m: Memory, x: nat, r: nat, up: Parent): Memory
    requires x in m && r in m
    requires m[x].child0 != 0 ==> m[x].child0 in m
    requires m[x].child1 != 0 ==> m[x].child1 in m
  {
    var c0, c1 := m[x].child0, m[x].child1;
    var m1 := m[r := m[r].(parent := up)];
    var m2 := if c0 != 0 then Adopt0(m1, r, c0) else m1;
    if c1 != 0 then Adopt1(m2, r, c1) else m2
  }

  ghost function Adopt0(m: Memory, r: nat, c: nat): Memory
    requires r in m && c in m
  {
    var m1 := m[r := m[r].(child0 := c)];
    m1[c := m1[c].(parent := InNode(r))]
  }

  ghost function Adopt1(m: Memory, r: nat, c: nat): Memory
    requires r in m && c in m
  {
    var m1 := m[r := m[r].(child1 := c)];
    m1[c := m1[c].(parent := InNode(r))]
  }

  lemma ChildIn(m: Memory, t: Trie, p: nat, up: Parent, i: nat)
    requires Rep(m, t, p, up, i)
    ensures p == 0 <==> t.Nil?
    ensures p != 0 ==> p in m && p in t.ring && Holds(t, p)
  {
    if t.Node? { assert Member(m, t.ring, 0, t.size, up, i); }
  }

  lemma PromoteRep(m: Memory, x: nat, r: nat, ring: seq<nat>, size: nat, l: Trie, g: Trie, was: Parent, up: Parent,
                   i: nat, lo: nat, h: nat)
    requires x in m && x != r && ring != [] && ring[0] == r && NoDup(ring)
    requires Ring(m, ring, size, was, i) && r in m && m[r].child0 == 0 && m[r].child1 == 0
    requires Rep(m, l, m[x].child0, InNode(x), i) && Rep(m, g, m[x].child1, InNode(x), i)
    requires WF(Node(size, ring, l, g), lo, h) && x !in ring && !Holds(l, x) && !Holds(g, x)
    ensures m[x].child0 != 0 ==> m[x].child0 in m
    ensures m[x].child1 != 0 ==> m[x].child1 in m
    ensures Rep(Promoted(m, x, r, up), Node(size, ring, l, g), r, up, i)
    ensures forall a: nat :: a in m && a != r && !Holds(l, a) && !Holds(g, a) ==>
      a in Promoted(m, x, r, up) && Promoted(m, x, r, up)[a] == m[a]
  {
    hide Has, Rep;
    var c0, c1 := m[x].child0, m[x].child1;
    ChildIn(m, l, c0, InNode(x), i);
    ChildIn(m, g, c1, InNode(x), i);
    assert r in ring;
    assert c0 != 0 ==> c0 != r && !Holds(g, c0);
    assert c1 != 0 ==> c1 != r && !Holds(l, c1);
    var m' := Promoted(m, x, r, up);
    PromotedAt(m, x, r, up);
    hide Promoted;
    if h > 0 {
      Rehang(m, m', l, c0, InNode(x), InNode(r), i, lo, h - 1);
      Rehang(m, m', g, c1, InNode(x), InNode(r), i, lo + Pow2(h - 1), h - 1);
    }
    forall k: nat | k < |ring|
      ensures Member(m', ring, k, size, up, i)
    {
      assert Member(m, ring, k, size, was, i);
      assert ring[k] in ring;
    }
    RepNode(m', r, ring, size, l, g, up, i);
  }

  lemma RepNode(m: Memory, r: nat, ring: seq<nat>, size: nat, l: Trie, g: Trie, up: Parent, i: nat)
    requires ring != [] && ring[0] == r && Ring(m, ring, size, up, i) && r in m
    requires Rep(m, l, m[r].child0, InNode(r), i) && Rep(m, g, m[r].child1, InNode(r), i)
    ensures Rep(m, Node(size, ring, l, g), r, up, i)
  {
    assert Member(m, ring, 0, size, up, i);
  }

  /** What changes when r takes the place of x. */
  lemma PromotedAt(m: Memory, x: nat, r: nat, up: Parent)
    requires x in m && r in m && x != r && m[r].child0 == 0 && m[r].child1 == 0
    requires m[x].child0 != 0 ==> m[x].child0 in m && m[x].child0 != r
    requires m[x].child1 != 0 ==> m[x].child1 in m && m[x].child1 != r
    requires m[x].child0 == m[x].child1 ==> m[x].child0 == 0
    ensures var m', c0, c1 := Promoted(m, x, r, up), m[x].child0, m[x].child1;
      && m'.Keys == m.Keys
      && m'[r] == m[r].(parent := up, child0 := c0, child1 := c1)
      && (c0 != 0 ==> m'[c0] == m[c0].(parent := InNode(r)))
      && (c1 != 0 ==> m'[c1] == m[c1].(parent := InNode(r)))
      && (forall a: nat :: a in m && a != r && a != c0 && a != c1 ==> m'[a] == m[a])
  {
  }

  // ----- the two phases of unlinking the head of a ring

  /**
   * After the first phase, r is the chunk that will replace x (0 if none): memory changed only below
   * `sub`, the ring of r is complete, and the children of x are those that u will have.
   */
  ghost predicate Detached(m: Memory, m1: Memory, sub: Trie, x: nat, u: Trie, r: nat, i: nat) {
    && x in m && x in m1 && m1[x].parent == m[x].parent
    && (forall a: nat :: a in m && !Holds(sub, a) ==> a in m1 && m1[a] == m[a])
    && (r == 0 ==> u.Nil? && m1 == m)
    && (r != 0 ==>
         && u.Node? && u.ring != [] && u.ring[0] == r && r in m1 && r != x && m1[r].child0 == 0 && m1[r].child1 == 0
         && (exists was :: Ring(m1, u.ring, u.size, was, i))
         && Rep(m1, u.left, m1[x].child0, InNode(x), i) && Rep(m1, u.right, m1[x].child1, InNode(x), i))
  }

  /** Chained chunks of a ring stand in for its head. */
  lemma DetachHead(m: Memory, sub: Trie, x: nat, up: Parent, i: nat, lo: nat, h: nat)
    requires Rep(m, sub, x, up, i) && WF(sub, lo, h) && sub.Node? && |sub.ring| > 1
    ensures x in m && m[x].fd in m && m[x].bk in m && m[x].bk != x && m[x].bk != 0
    ensures Detached(m, Joined(m, m[x].fd, m[x].bk), sub, x, RemoveHere(sub, x), m[x].bk, i)
  {
    RingBehead(m, sub.ring, sub.size, up, i);
    var m1 := Joined(m, m[x].fd, m[x].bk);
    assert m[x].bk in sub.ring && m[x].fd in sub.ring;
    RepFrame(m, m1, sub.left, m[x].child0, InNode(x), i);
    RepFrame(m, m1, sub.right, m[x].child1, InNode(x), i);
    assert Member(m, sub.ring, |sub.ring| - 1, sub.size, up, i);
    assert Member(m, sub.ring, 0, sub.size, up, i);
  }

  lemma RemoveHereIsPrune(sub: Trie, x: nat)
    requires sub.Node? && sub.ring == [x] && (sub.left.Node? || sub.right.Node?)
    ensures Prune(sub).Node? && Prune(sub).ring == [x]
    ensures RemoveHere(sub, x) == Node(RightLeaf(sub).size, RightLeaf(sub).ring, Prune(sub).left, Prune(sub).right)
  {
  }

  /** A leaf below x stands in for x: its slot is cleared. */
  lemma DetachLeaf(m: Memory, m1: Memory, sub: Trie, x: nat, up: Parent, i: nat, lp: Path, r: nat, slot: nat,
                   lo: nat, h: nat)
    requires Rep(m, sub, x, up, i) && WF(sub, lo, h) && sub.Node? && sub.ring == [x]
    requires OnPath(sub, lp) && lp != [] && Sub(sub, lp) == RightLeaf(sub) && Prune(sub) == Graft(sub, lp, Nil)
    requires r == PtrAt(m, sub, x, lp) && InNode(slot) == UpAt(m, sub, x, up, lp)
    requires SlotSet(m, m1, InNode(slot), lp[|lp| - 1], 0) && m1 == m[slot := m1[slot]]
    ensures Detached(m, m1, sub, x, RemoveHere(sub, x), r, i)
  {
    hide WF;
    var leaf := RightLeaf(sub);
    RepAt(m, sub, x, up, i, lp);
    UpOutside(m, sub, x, up, i, lp, lo, h);
    SlotAt(m, sub, x, up, i, lp, lo, h);
    SubHolds(sub, lp);
    RepGraft(m, m1, sub, x, up, i, lp, Nil, 0, lo, h);
    RemoveHereIsPrune(sub, x) by { assert lp[0] ==> sub.right.Node?; }
    assert Rep(m1, Prune(sub), x, up, i);
    RepFrame(m, m1, leaf, r, InNode(slot), i);
    assert Ring(m1, leaf.ring, leaf.size, InNode(slot), i);
  }

  /** The second phase when x was the root of its bin. */
  lemma ReplantRoot(m: Memory, m1: Memory, sub: Trie, x: nat, up: Parent, i: nat, u: Trie, r: nat, lo: nat, h: nat)
    requires Detached(m, m1, sub, x, u, r, i) && WF(u, lo, h)
    requires sub.Node? && x in sub.ring && forall a :: Holds(u, a) ==> Holds(sub, a) && a != x
    ensures r != 0 ==> r in m1 && (m1[x].child0 != 0 ==> m1[x].child0 in m1) && (m1[x].child1 != 0 ==> m1[x].child1 in m1)
    ensures Rep(if r == 0 then m1 else Promoted(m1, x, r, up), u, r, up, i)
    ensures forall a: nat :: a in m && !Holds(sub, a) ==>
      var m3 := if r == 0 then m1 else Promoted(m1, x, r, up); a in m3 && m3[a] == m[a]
  {
    if r != 0 {
      var was :| Ring(m1, u.ring, u.size, was, i);
      PromoteRep(m1, x, r, u.ring, u.size, u.left, u.right, was, up, i, lo, h);
    }
  }

  /** The second phase when x hangs below another chunk. */
  lemma ReplantBelow(m: Memory, m1: Memory, m2: Memory, t0: Trie, root: nat, i: nat, path: Path, x: nat, u: Trie, r: nat,
                     lo: nat, h: nat, slo: nat, sh: nat)
    requires Rep(m, t0, root, InBin(i), i) && WF(t0, lo, h) && OnPath(t0, path) && path != []
    requires Sub(t0, path).Node? && x == PtrAt(m, t0, root, path)
    requires Detached(m, m1, Sub(t0, path), x, u, r, i) && WF(u, slo, sh)
    requires forall a :: Holds(u, a) ==> Holds(Sub(t0, path), a) && a != x
    requires var up := UpAt(m, t0, root, InBin(i), path);
      up.InNode? && up.addr in m1 && up.addr in m2 && m2 == m1[up.addr := m2[up.addr]] && SlotSet(m1, m2, up, path[|path| - 1], r)
    ensures r != 0 ==> x in m2 && r in m2
    ensures r != 0 ==> (m2[x].child0 != 0 ==> m2[x].child0 in m2) && (m2[x].child1 != 0 ==> m2[x].child1 in m2)
    ensures var up := UpAt(m, t0, root, InBin(i), path);
      var m3 := if r == 0 then m2 else Promoted(m2, x, r, up);
      && Rep(m3, Graft(t0, path, u), root, InBin(i), i)
      && (forall a: nat :: a in m && !Holds(t0, a) ==> a in m3 && m3[a] == m[a])
  {
    hide WF, Promoted, Detached, Rep, Sub, UpAt, PtrAt, Graft, OnPath;
    var sub := Sub(t0, path);
    var up := UpAt(m, t0, root, InBin(i), path);
    HeadAt(m, t0, root, i, path);
    UpOutside(m, t0, root, InBin(i), i, path, lo, h);
    SubHolds(t0, path);
    DetachedOutside(m, m1, sub, x, u, r, i);
    var m3 := m2;
    if r != 0 {
      PromoteDetached(m, m1, m2, sub, x, u, r, i, up, slo, sh);
      m3 := Promoted(m2, x, r, up);
    } else {
      NilRep(m3, u, up, i);
    }
    assert SlotSet(m, m3, up, path[|path| - 1], r);
    RepGraft(m, m3, t0, root, InBin(i), i, path, u, r, lo, h);
  }

  /** The chunk at the end of a path heads its ring. */
  lemma HeadAt(m: Memory, t0: Trie, root: nat, i: nat, path: Path)
    requires Rep(m, t0, root, InBin(i), i) && OnPath(t0, path) && Sub(t0, path).Node?
    ensures PtrAt(m, t0, root, path) in Sub(t0, path).ring
  {
    RepAt(m, t0, root, InBin(i), i, path);
  }

  lemma NilRep(m: Memory, u: Trie, up: Parent, i: nat)
    requires u.Nil?
    ensures Rep(m, u, 0, up, i)
  {
  }

  lemma DetachedOutside(m: Memory, m1: Memory, sub: Trie, x: nat, u: Trie, r: nat, i: nat)
    requires Detached(m, m1, sub, x, u, r, i)
    ensures forall a: nat :: a in m && !Holds(sub, a) ==> a in m1 && m1[a] == m[a]
    ensures r == 0 ==> u.Nil?
  {
  }

  /** The replacement takes the place of x, whose parent's slot already points to it. */
  lemma PromoteDetached(m: Memory, m1: Memory, m2: Memory, sub: Trie, x: nat, u: Trie, r: nat, i: nat, up: Parent,
                        slo: nat, sh: nat)
    requires Detached(m, m1, sub, x, u, r, i) && r != 0 && WF(u, slo, sh) && sub.Node? && x in sub.ring
    requires forall a :: Holds(u, a) ==> Holds(sub, a) && a != x
    requires up.InNode? && up.addr in m2 && !Holds(sub, up.addr) && m2 == m1[up.addr := m2[up.addr]]
    ensures x in m2 && r in m2
    ensures (m2[x].child0 != 0 ==> m2[x].child0 in m2) && (m2[x].child1 != 0 ==> m2[x].child1 in m2)
    ensures var m3 := Promoted(m2, x, r, up);
      && Rep(m3, u, r, up, i) && up.addr in m3 && m3[up.addr] == m2[up.addr]
      && (forall a: nat :: a in m && !Holds(sub, a) && a != up.addr ==> a in m3 && m3[a] == m[a])
  {
    hide WF, Promoted, Ring;
    DetachedKept(m, m1, m2, sub, x, u, r, i, up.addr);
    var was :| Ring(m2, u.ring, u.size, was, i);
    NodeApart(u, x, slo, sh);
    PromoteRep(m2, x, r, u.ring, u.size, u.left, u.right, was, up, i, slo, sh);
    assert r in u.ring;
  }

  lemma NodeApart(u: Trie, x: nat, lo: nat, h: nat)
    requires u.Node? && WF(u, lo, h) && !Holds(u, x)
    ensures NoDup(u.ring) && x !in u.ring && !Holds(u.left, x) && !Holds(u.right, x)
  {
  }

  /** Writing a chunk outside the replacement keeps the replacement. */
  lemma DetachedKept(m: Memory, m1: Memory, m2: Memory, sub: Trie, x: nat, u: Trie, r: nat, i: nat, q: nat)
    requires Detached(m, m1, sub, x, u, r, i) && r != 0 && !Holds(u, q) && q != x
    requires q in m2 && m2 == m1[q := m2[q]]
    ensures x in m2 && r in m2 && m2[r] == m1[r] && m2[x] == m1[x]
    ensures exists was :: Ring(m2, u.ring, u.size, was, i)
    ensures Rep(m2, u.left, m2[x].child0, InNode(x), i) && Rep(m2, u.right, m2[x].child1, InNode(x), i)
  {
    assert r in u.ring;
    var was :| Ring(m1, u.ring, u.size, was, i);
    RingFrame(m1, m2, u.ring, u.size, was, i);
    RepFrame(m1, m2, u.left, m1[x].child0, InNode(x), i);
    RepFrame(m1, m2, u.right, m1[x].child1, InNode(x), i);
  }
}
