/** How the linked tree chunks in memory represent a trie. */
module TreeRep {
  import opened Words
  import opened Tries

  /** The parent field: null for chained chunks, the bin header for a root, else the parent chunk. */
  datatype Parent = NoParent | InBin(bin: nat) | InNode(addr: nat)

  /** The fields of a free large chunk; chunk addresses stand for pointers and 0 for null. */
  datatype TreeChunk = TreeChunk(size: nat, fd: nat, bk: nat, child0: nat, child1: nat, parent: Parent, index: nat)

  type Memory = map<nat, TreeChunk>

  ghost function Succ(j: nat, n: nat): nat { if j + 1 == n then 0 else j + 1 }

  ghost function Pred(j: nat, n: nat): nat
    requires n > 0
  {
    if j == 0 then n - 1 else j - 1
  }

  /** Chunk a sits at position j of a ring of same-sized chunks. */
  ghost predicate Member(m: Memory, ring: seq<nat>, j: nat, size: nat, up: Parent, i: nat)
    requires j < |ring|
  {
    var a := ring[j];
    && a != 0 && a in m
    && m[a].size == size && m[a].index == i
    && m[a].fd == ring[Succ(j, |ring|)] && m[a].bk == ring[Pred(j, |ring|)]
    && (if j == 0 then m[a].parent == up else m[a].parent == NoParent && m[a].child0 == 0 && m[a].child1 == 0)
  }

  ghost predicate Ring(m: Memory, ring: seq<nat>, size: nat, up: Parent, i: nat) {
    forall j: nat | j < |ring| :: Member(m, ring, j, size, up, i)
  }

  /** Pointer p, reached from `up`, is the root of a tree that represents t. */
  ghost predicate Rep(m: Memory, t: Trie, p: nat, up: Parent, i: nat) {
    if t.Nil? then p == 0
    else
      && t.ring != [] && p == t.ring[0]
      && Ring(m, t.ring, t.size, up, i)
      && Member(m, t.ring, 0, t.size, up, i)
      && Rep(m, t.left, m[p].child0, InNode(p), i)
      && Rep(m, t.right, m[p].child1, InNode(p), i)
  }

  ghost predicate SameOn(m: Memory, m': Memory, t: Trie) {
    forall a: nat :: Holds(t, a) && a in m ==> a in m' && m'[a] == m[a]
  }

  lemma {:induction false} RepFrame(m: Memory, m': Memory, t: Trie, p: nat, up: Parent, i: nat)
    requires Rep(m, t, p, up, i) && SameOn(m, m', t)
    ensures Rep(m', t, p, up, i)
  {
    if t.Node? {
      RepFrame(m, m', t.left, m[p].child0, InNode(p), i);
      RepFrame(m, m', t.right, m[p].child1, InNode(p), i);
      RingFrame(m, m', t.ring, t.size, up, i);
    }
  }

  lemma RingFrame(m: Memory, m': Memory, ring: seq<nat>, size: nat, up: Parent, i: nat)
    requires Ring(m, ring, size, up, i)
    requires forall a: nat :: a in ring && a in m ==> a in m' && m'[a] == m[a]
    ensures Ring(m', ring, size, up, i)
  {
    forall j: nat | j < |ring|
      ensures Member(m', ring, j, size, up, i)
    {
      assert Member(m, ring, j, size, up, i);
      assert ring[j] in ring;
    }
  }

  /** Re-hanging a tree: only the parent field of its root changes. */
  lemma Rehang(m: Memory, m': Memory, t: Trie, p: nat, up: Parent, up': Parent, i: nat, lo: nat, h: nat)
    requires Rep(m, t, p, up, i) && WF(t, lo, h)
    requires t.Node? ==> p in m && p in m' && m'[p] == m[p].(parent := up')
    requires forall a: nat :: Holds(t, a) && a != p && a in m ==> a in m' && m'[a] == m[a]
    ensures Rep(m', t, p, up', i)
  {
    if t.Node? {
      assert p in t.ring;
      assert !Holds(t.left, p) && !Holds(t.right, p);
      RepFrame(m, m', t.left, m[p].child0, InNode(p), i);
      RepFrame(m, m', t.right, m[p].child1, InNode(p), i);
      forall j: nat | j < |t.ring|
        ensures Member(m', t.ring, j, t.size, up', i)
      {
        assert Member(m, t.ring, j, t.size, up, i);
        assert t.ring[j] in t.ring;
      }
    }
  }

  // ----- positions inside a trie

  /** A path from the root: true turns right. */
  type Path = seq<bool>

  ghost predicate OnPath(t: Trie, path: Path) {
    path == [] || (t.Node? && OnPath(if path[0] then t.right else t.left, path[1..]))
  }

  ghost function Sub(t: Trie, path: Path): Trie
    requires OnPath(t, path)
  {
    if path == [] then t else Sub(if path[0] then t.right else t.left, path[1..])
  }

  /** The trie with the subtrie at the path replaced. */
  ghost function Graft(t: Trie, path: Path, u: Trie): Trie
    requires OnPath(t, path)
  {
    if path == [] then u
    else if path[0] then t.(right := Graft(t.right, path[1..], u))
    else t.(left := Graft(t.left, path[1..], u))
  }

  /** The pointer found at a path, and the parent link it must carry. */
  ghost function PtrAt(m: Memory, t: Trie, p: nat, path: Path): nat
    requires OnPath(t, path)
  {
    if path == [] then p
    else if p !in m then 0
    else if path[0] then PtrAt(m, t.right, m[p].child1, path[1..])
    else PtrAt(m, t.left, m[p].child0, path[1..])
  }

  ghost function UpAt(m: Memory, t: Trie, p: nat, up: Parent, path: Path): Parent
    requires OnPath(t, path)
  {
    if path == [] then up
    else if p !in m then NoParent
    else if path[0] then UpAt(m, t.right, m[p].child1, InNode(p), path[1..])
    else UpAt(m, t.left, m[p].child0, InNode(p), path[1..])
  }

  lemma {:induction false} RepAt(m: Memory, t: Trie, p: nat, up: Parent, i: nat, path: Path)
    requires Rep(m, t, p, up, i) && OnPath(t, path)
    ensures Rep(m, Sub(t, path), PtrAt(m, t, p, path), UpAt(m, t, p, up, path), i)
    ensures path != [] ==> UpAt(m, t, p, up, path).InNode?
    decreases path
  {
    if path != [] {
      if path[0] { RepAt(m, t.right, m[p].child1, InNode(p), i, path[1..]); }
      else { RepAt(m, t.left, m[p].child0, InNode(p), i, path[1..]); }
    }
  }

  lemma {:induction false} SubHolds(t: Trie, path: Path)
    requires OnPath(t, path)
    ensures forall a :: Holds(Sub(t, path), a) ==> Holds(t, a)
    ensures forall a, z :: Has(Sub(t, path), a, z) ==> Has(t, a, z)
    decreases path
  {
    if path != [] {
      if path[0] { SubHolds(t.right, path[1..]); } else { SubHolds(t.left, path[1..]); }
    }
  }

  lemma {:induction false} Extend(m: Memory, t: Trie, p: nat, up: Parent, i: nat, path: Path, d: bool)
    requires OnPath(t, path) && Sub(t, path).Node?
    requires Rep(m, t, p, up, i)
    ensures OnPath(t, path + [d])
    ensures Sub(t, path + [d]) == if d then Sub(t, path).right else Sub(t, path).left
    ensures var q := PtrAt(m, t, p, path);
      && q in m
      && PtrAt(m, t, p, path + [d]) == (if d then m[q].child1 else m[q].child0)
      && UpAt(m, t, p, up, path + [d]) == InNode(q)
    decreases path
  {
    if path == [] {
      assert (path + [d])[1..] == [];
    } else {
      assert (path + [d])[1..] == path[1..] + [d];
      if path[0] { Extend(m, t.right, m[p].child1, InNode(p), i, path[1..], d); }
      else { Extend(m, t.left, m[p].child0, InNode(p), i, path[1..], d); }
    }
  }

  lemma {:induction false} GraftTwice(t: Trie, path: Path, d: bool, u: Trie)
    requires OnPath(t, path) && Sub(t, path).Node? && OnPath(t, path + [d])
    ensures Graft(t, path + [d], u)
      == Graft(t, path, if d then Sub(t, path).(right := u) else Sub(t, path).(left := u))
    decreases path
  {
    if path == [] {
      assert (path + [d])[1..] == [];
    } else {
      assert (path + [d])[1..] == path[1..] + [d];
      GraftTwice(if path[0] then t.right else t.left, path[1..], d, u);
    }
  }

  lemma {:induction false} GraftSame(t: Trie, path: Path)
    requires OnPath(t, path)
    ensures Graft(t, path, Sub(t, path)) == t
    decreases path
  {
    if path != [] {
      GraftSame(if path[0] then t.right else t.left, path[1..]);
    }
  }

  /** The child slot through which a path enters its last node now holds pointer q. */
  ghost predicate SlotSet(m: Memory, m': Memory, up: Parent, d: bool, q: nat) {
    up.InNode? && up.addr in m && up.addr in m'
    && m'[up.addr] == if d then m[up.addr].(child1 := q) else m[up.addr].(child0 := q)
  }

  /**
   * Replacing a subtree in memory: if memory changed only inside the old subtree and in the slot that
   * pointed to it, and the slot now points to a representation of u, the whole represents the graft.
   */
  lemma {:induction false} RepGraft(m: Memory, m': Memory, t: Trie, p: nat, up: Parent, i: nat, path: Path,
                                    u: Trie, q: nat, lo: nat, h: nat)
    requires Rep(m, t, p, up, i) && WF(t, lo, h) && OnPath(t, path) && path != []
    requires Rep(m', u, q, UpAt(m, t, p, up, path), i)
    requires SlotSet(m, m', UpAt(m, t, p, up, path), path[|path| - 1], q)
    requires forall a: nat ::
      (Holds(t, a) && !Holds(Sub(t, path), a) && InNode(a) != UpAt(m, t, p, up, path) && a in m
       ==> a in m' && m'[a] == m[a])
    ensures Rep(m', Graft(t, path, u), p, up, i)
    decreases path
  {
    hide Member;
    var d := path[0];
    var rest := path[1..];
    var child, other := if d then t.right else t.left, if d then t.left else t.right;
    var cp, op := if d then m[p].child1 else m[p].child0, if d then m[p].child0 else m[p].child1;
    SubHolds(child, rest);
    assert p in t.ring;
    if rest == [] {
      assert UpAt(m, t, p, up, path) == InNode(p);
      RepFrame(m, m', other, op, InNode(p), i);
      RingKept(m, m', t.ring, t.size, up, i);
    } else {
      assert child.Node? && h > 0;
      UpInside(m, child, cp, InNode(p), i, rest);
      RepGraft(m, m', child, cp, InNode(p), i, rest, u, q, if d then lo + Pow2(h - 1) else lo, h - 1);
      RepFrame(m, m', other, op, InNode(p), i);
      RingKept(m, m', t.ring, t.size, up, i);
    }
  }

  /** Changing a subtree in place, its root staying where it is. */
  lemma {:induction false} RepReplace(m: Memory, m': Memory, t: Trie, p: nat, up: Parent, i: nat, path: Path,
                                      u: Trie, lo: nat, h: nat)
    requires Rep(m, t, p, up, i) && WF(t, lo, h) && OnPath(t, path) && Sub(t, path).Node?
    requires Rep(m', u, PtrAt(m, t, p, path), UpAt(m, t, p, up, path), i)
    requires forall a: nat :: Holds(t, a) && !Holds(Sub(t, path), a) && a in m ==> a in m' && m'[a] == m[a]
    ensures Rep(m', Graft(t, path, u), p, up, i)
    decreases path
  {
    if path != [] {
      var d := path[0];
      var child, other := if d then t.right else t.left, if d then t.left else t.right;
      var cp, op := if d then m[p].child1 else m[p].child0, if d then m[p].child0 else m[p].child1;
      SubHolds(child, path[1..]);
      assert p in t.ring;
      assert h > 0 by { assert child.Node?; }
      RepReplace(m, m', child, cp, InNode(p), i, path[1..], u, if d then lo + Pow2(h - 1) else lo, h - 1);
      RepFrame(m, m', other, op, InNode(p), i);
      RingFrame(m, m', t.ring, t.size, up, i);
    }
  }

  ghost function Spliced(c: TreeChunk, before: bool, after: bool, x: nat): TreeChunk {
    c.(fd := if before then x else c.fd, bk := if after then x else c.bk)
  }

  /** Linking x behind the head of a ring of same-sized chunks. */
  lemma RingInsert(m: Memory, m': Memory, ring: seq<nat>, x: nat, size: nat, up: Parent, i: nat)
    requires ring != [] && NoDup(ring) && x !in ring && x != 0
    requires Ring(m, ring, size, up, i)
    requires x in m' && forall a: nat :: a in ring ==> a in m'
    requires var f := ring[Succ(0, |ring|)];
      && m'[x] == TreeChunk(size, f, ring[0], 0, 0, NoParent, i)
      && (forall a: nat :: a in ring && a in m ==> m'[a] == Spliced(m[a], a == ring[0], a == f, x))
    ensures Ring(m', [ring[0], x] + ring[1..], size, up, i)
  {
    var r := [ring[0], x] + ring[1..];
    forall j: nat | j < |r|
      ensures Member(m', r, j, size, up, i)
    {
      if j == 0 {
        assert Member(m, ring, 0, size, up, i);
        assert ring[0] in ring;
      } else if j >= 2 {
        assert Member(m, ring, j - 1, size, up, i);
        assert r[j] == ring[j - 1];
        assert r[j] in ring;
      }
    }
  }

  /** Writing child fields of its head leaves a ring intact. */
  lemma RingKept(m: Memory, m': Memory, ring: seq<nat>, size: nat, up: Parent, i: nat)
    requires Ring(m, ring, size, up, i) && ring != [] && NoDup(ring)
    requires forall a: nat :: a in ring && a != ring[0] && a in m ==> a in m' && m'[a] == m[a]
    requires ring[0] in m && ring[0] in m'
    requires m'[ring[0]] == m[ring[0]].(child0 := m'[ring[0]].child0, child1 := m'[ring[0]].child1)
    ensures Ring(m', ring, size, up, i)
  {
    forall j: nat | j < |ring|
      ensures Member(m', ring, j, size, up, i)
    {
      assert Member(m, ring, j, size, up, i);
      assert ring[j] in ring;
    }
  }

  /** The parent of a position below the root is a chunk of the trie outside the subtrie there. */
  lemma {:induction false} UpInside(m: Memory, t: Trie, p: nat, up: Parent, i: nat, path: Path)
    requires Rep(m, t, p, up, i) && OnPath(t, path) && path != []
    ensures UpAt(m, t, p, up, path).InNode? && Holds(t, UpAt(m, t, p, up, path).addr)
    decreases path
  {
    if path[1..] != [] {
      if path[0] { UpInside(m, t.right, m[p].child1, InNode(p), i, path[1..]); }
      else { UpInside(m, t.left, m[p].child0, InNode(p), i, path[1..]); }
    }
  }
}
