/**
 * Tree bins as values: a bitwise trie keyed on chunk sizes.  A node holds one size and the ring of free
 * chunks of that size; its own size bears no order to its children, only the block of sizes splits in two.
 */
module Tries {
  import opened Words

  datatype Trie = Nil | Node(size: nat, ring: seq<nat>, left: Trie, right: Trie)

  ghost predicate NoDup(s: seq<nat>) {
    forall i, j :: 0 <= i < j < |s| ==> s[i] != s[j]
  }

  /** Chunk a of size z is stored. */
  ghost predicate Has(t: Trie, a: int, z: int) {
    t.Node? && ((a in t.ring && z == t.size) || Has(t.left, a, z) || Has(t.right, a, z))
  }

  ghost predicate Holds(t: Trie, a: int) {
    t.Node? && (a in t.ring || Holds(t.left, a) || Holds(t.right, a))
  }

  ghost predicate AllSizes(t: Trie, lo: nat, hi: nat) {
    forall a, z :: Has(t, a, z) ==> lo <= z < hi
  }

  /** Chunks of a child neither repeat a chunk of the root's ring nor have the root's size. */
  ghost predicate Below(child: Trie, size: nat, ring: seq<nat>) {
    && (forall a :: !Has(child, a, size))
    && (forall a :: Holds(child, a) ==> a !in ring)
  }

  ghost predicate Apart(t: Trie, u: Trie) {
    forall a :: Holds(t, a) ==> !Holds(u, a)
  }

  /** A trie over the 2^h sizes starting at lo. */
  ghost predicate WF(t: Trie, lo: nat, h: nat) {
    t.Node? ==>
      && t.ring != [] && NoDup(t.ring)
      && lo <= t.size < lo + Pow2(h)
      && (if h == 0 then t.left.Nil? && t.right.Nil?
          else WF(t.left, lo, h - 1) && WF(t.right, lo + Pow2(h - 1), h - 1))
      && Below(t.left, t.size, t.ring) && Below(t.right, t.size, t.ring) && Apart(t.left, t.right)
  }

  lemma {:induction false} HasHolds(t: Trie)
    ensures forall a, z :: Has(t, a, z) ==> Holds(t, a)
  {
    if t.Node? {
      HasHolds(t.left);
      HasHolds(t.right);
    }
  }

  lemma {:induction false} HoldsHas(t: Trie, a: int)
    requires Holds(t, a)
    ensures exists z: nat :: Has(t, a, z)
  {
    if a in t.ring {
      assert Has(t, a, t.size);
    } else if Holds(t.left, a) {
      HoldsHas(t.left, a);
      var z: nat :| Has(t.left, a, z);
      assert Has(t, a, z);
    } else {
      HoldsHas(t.right, a);
      var z: nat :| Has(t.right, a, z);
      assert Has(t, a, z);
    }
  }

  /** Does the search for size s turn left? */
  predicate GoesLeft(s: nat, lo: nat, h: nat)
    requires h > 0
  {
    s < lo + Pow2(h - 1)
  }

  lemma {:induction false} SizesInBlock(t: Trie, lo: nat, h: nat)
    requires WF(t, lo, h)
    ensures AllSizes(t, lo, lo + Pow2(h))
  {
    if t.Node? && h > 0 {
      SizesInBlock(t.left, lo, h - 1);
      SizesInBlock(t.right, lo + Pow2(h - 1), h - 1);
    }
  }

  // ----- insertion

  function Insert(t: Trie, x: nat, s: nat, lo: nat, h: nat): (r: Trie)
    requires lo <= s < lo + Pow2(h)
    requires WF(t, lo, h)
    decreases h
  {
    if t.Nil? then Node(s, [x], Nil, Nil)
    else if t.size == s then t.(ring := [t.ring[0], x] + t.ring[1..])
    else
      assert h > 0;
      if GoesLeft(s, lo, h) then t.(left := Insert(t.left, x, s, lo, h - 1))
      else t.(right := Insert(t.right, x, s, lo + Pow2(h - 1), h - 1))
  }

  lemma {:induction false} InsertHas(t: Trie, x: nat, s: nat, lo: nat, h: nat)
    requires lo <= s < lo + Pow2(h)
    requires WF(t, lo, h)
    ensures forall a, z :: Has(Insert(t, x, s, lo, h), a, z) <==> Has(t, a, z) || (a == x && z == s)
    ensures forall a :: Holds(Insert(t, x, s, lo, h), a) <==> Holds(t, a) || a == x
    decreases h
  {
    var r := Insert(t, x, s, lo, h);
    if t.Nil? {
    } else if t.size == s {
      assert forall a :: a in r.ring <==> a in t.ring || a == x by {
        assert t.ring == [t.ring[0]] + t.ring[1..];
      }
    } else if GoesLeft(s, lo, h) {
      InsertHas(t.left, x, s, lo, h - 1);
    } else {
      InsertHas(t.right, x, s, lo + Pow2(h - 1), h - 1);
    }
  }

  /** Insertion keeps the trie well-formed. */
  lemma {:induction false} InsertWF(t: Trie, x: nat, s: nat, lo: nat, h: nat)
    requires lo <= s < lo + Pow2(h)
    requires WF(t, lo, h) && !Holds(t, x)
    ensures WF(Insert(t, x, s, lo, h), lo, h)
    decreases h
  {
    var r := Insert(t, x, s, lo, h);
    if t.Nil? {
    } else if t.size == s {
      assert t.ring == [t.ring[0]] + t.ring[1..];
      assert forall a :: a in r.ring <==> a in t.ring || a == x;
    } else if GoesLeft(s, lo, h) {
      InsertWF(t.left, x, s, lo, h - 1);
      InsertHas(t.left, x, s, lo, h - 1);
    } else {
      InsertWF(t.right, x, s, lo + Pow2(h - 1), h - 1);
      InsertHas(t.right, x, s, lo + Pow2(h - 1), h - 1);
    }
  }

  // ----- removal

  /** The ring after unlinking x: when x heads the ring its predecessor takes the head position. */
  function RingWithout(ring: seq<nat>, x: nat): (r: seq<nat>)
    requires x in ring && |ring| > 1
    ensures |r| == |ring| - 1
  {
    if ring[0] == x then [ring[|ring| - 1]] + ring[1..|ring| - 1]
    else Without(ring, x)
  }

  function Without(s: seq<nat>, x: nat): (r: seq<nat>)
    requires x in s
    ensures |r| == |s| - 1
  {
    if s[0] == x then s[1..] else [s[0]] + Without(s[1..], x)
  }

  lemma {:induction false} WithoutCorrect(s: seq<nat>, x: nat)
    requires x in s && NoDup(s)
    ensures NoDup(Without(s, x))
    ensures forall a :: a in Without(s, x) <==> a in s && a != x
  {
    assert s == [s[0]] + s[1..];
    if s[0] != x {
      assert NoDup(s[1..]);
      WithoutCorrect(s[1..], x);
      assert s[0] !in s[1..];
    }
  }

  lemma RingWithoutCorrect(ring: seq<nat>, x: nat)
    requires x in ring && |ring| > 1 && NoDup(ring)
    ensures NoDup(RingWithout(ring, x))
    ensures forall a :: a in RingWithout(ring, x) <==> a in ring && a != x
  {
    if ring[0] == x {
      var n := |ring|;
      assert ring == [x] + ring[1..n - 1] + [ring[n - 1]];
    } else {
      WithoutCorrect(ring, x);
    }
  }

  /** The leaf reached by preferring right children, and the trie without it. */
  function RightLeaf(t: Trie): (leaf: Trie)
    requires t.Node?
    ensures leaf.Node? && leaf.left.Nil? && leaf.right.Nil?
  {
    if t.right.Node? then RightLeaf(t.right) else if t.left.Node? then RightLeaf(t.left) else t
  }

  function Prune(t: Trie): (r: Trie)
    requires t.Node?
  {
    if t.right.Node? then t.(right := Prune(t.right))
    else if t.left.Node? then t.(left := Prune(t.left))
    else Nil
  }

  lemma {:induction false} RightLeafIn(t: Trie, lo: nat, h: nat)
    requires t.Node? && WF(t, lo, h)
    ensures RightLeaf(t).ring != [] && NoDup(RightLeaf(t).ring)
    ensures forall a :: a in RightLeaf(t).ring ==> Has(t, a, RightLeaf(t).size) && Holds(t, a)
    decreases h
  {
    if t.right.Node? {
      RightLeafIn(t.right, lo + Pow2(h - 1), h - 1);
    } else if t.left.Node? {
      RightLeafIn(t.left, lo, h - 1);
    }
  }

  /** Pruning drops exactly the leaf's chunks, and no other chunk has the leaf's size. */
  lemma {:induction false} PruneHas(t: Trie, lo: nat, h: nat)
    requires t.Node? && WF(t, lo, h)
    ensures forall a, z :: Has(Prune(t), a, z) <==> Has(t, a, z) && a !in RightLeaf(t).ring
    ensures forall a :: Holds(Prune(t), a) <==> Holds(t, a) && a !in RightLeaf(t).ring
    ensures forall a :: !Has(Prune(t), a, RightLeaf(t).size)
    decreases h
  {
    RightLeafIn(t, lo, h);
    assert RightLeaf(t).ring[0] in RightLeaf(t).ring;
    HasHolds(t.left);
    HasHolds(t.right);
    if t.right.Node? {
      PruneHas(t.right, lo + Pow2(h - 1), h - 1);
      RightLeafIn(t.right, lo + Pow2(h - 1), h - 1);
      SizesInBlock(t.left, lo, h - 1);
      SizesInBlock(t.right, lo + Pow2(h - 1), h - 1);
    } else if t.left.Node? {
      PruneHas(t.left, lo, h - 1);
      RightLeafIn(t.left, lo, h - 1);
    }
  }

  lemma {:induction false} PruneWF(t: Trie, lo: nat, h: nat)
    requires t.Node? && WF(t, lo, h)
    ensures WF(Prune(t), lo, h)
    decreases h
  {
    if t.right.Node? {
      PruneWF(t.right, lo + Pow2(h - 1), h - 1);
      PruneHas(t.right, lo + Pow2(h - 1), h - 1);
    } else if t.left.Node? {
      PruneWF(t.left, lo, h - 1);
      PruneHas(t.left, lo, h - 1);
    }
  }

  /** Unlink chunk x from the root's ring; an emptied inner node takes over the ring of a leaf below it. */
  function RemoveHere(t: Trie, x: nat): (r: Trie)
    requires t.Node? && x in t.ring
  {
    if |t.ring| > 1 then t.(ring := RingWithout(t.ring, x))
    else if t.left.Nil? && t.right.Nil? then Nil
    else
      var leaf := RightLeaf(t);
      if t.right.Node? then Node(leaf.size, leaf.ring, t.left, Prune(t.right))
      else Node(leaf.size, leaf.ring, Prune(t.left), Nil)
  }

  ghost function Remove(t: Trie, x: nat): (r: Trie)
    requires Holds(t, x)
  {
    if x in t.ring then RemoveHere(t, x)
    else if Holds(t.left, x) then t.(left := Remove(t.left, x))
    else t.(right := Remove(t.right, x))
  }

  lemma RemoveHereHas(t: Trie, x: nat, lo: nat, h: nat)
    requires t.Node? && WF(t, lo, h) && x in t.ring
    ensures forall a, z :: Has(RemoveHere(t, x), a, z) <==> Has(t, a, z) && a != x
    ensures forall a :: Holds(RemoveHere(t, x), a) <==> Holds(t, a) && a != x
  {
    HasHolds(t.left);
    HasHolds(t.right);
    if |t.ring| > 1 {
      RingWithoutCorrect(t.ring, x);
    } else {
      assert t.ring == [x];
      if t.right.Node? {
        PruneHas(t.right, lo + Pow2(h - 1), h - 1);
        RightLeafIn(t.right, lo + Pow2(h - 1), h - 1);
        SameSize(t.right, lo + Pow2(h - 1), h - 1);
      } else if t.left.Node? {
        PruneHas(t.left, lo, h - 1);
        RightLeafIn(t.left, lo, h - 1);
        SameSize(t.left, lo, h - 1);
      }
    }
  }

  /** A chunk is stored under one size. */
  lemma {:induction false} SameSize(t: Trie, lo: nat, h: nat)
    requires WF(t, lo, h)
    ensures forall a, y, z :: Has(t, a, y) && Has(t, a, z) ==> y == z
    decreases h
  {
    if t.Node? && h > 0 {
      SameSize(t.left, lo, h - 1);
      SameSize(t.right, lo + Pow2(h - 1), h - 1);
      HasHolds(t.left);
      HasHolds(t.right);
    }
  }

  lemma RemoveHereWF(t: Trie, x: nat, lo: nat, h: nat)
    requires t.Node? && WF(t, lo, h) && x in t.ring
    ensures WF(RemoveHere(t, x), lo, h)
  {
    if |t.ring| > 1 {
      RingWithoutCorrect(t.ring, x);
    } else if t.right.Node? {
      var hi := lo + Pow2(h - 1);
      PruneWF(t.right, hi, h - 1);
      PruneHas(t.right, hi, h - 1);
      RightLeafIn(t.right, hi, h - 1);
      SizesInBlock(t.left, lo, h - 1);
      SizesInBlock(t.right, hi, h - 1);
      assert RightLeaf(t).ring[0] in RightLeaf(t).ring;
    } else if t.left.Node? {
      PruneWF(t.left, lo, h - 1);
      PruneHas(t.left, lo, h - 1);
      RightLeafIn(t.left, lo, h - 1);
      SizesInBlock(t.left, lo, h - 1);
      assert RightLeaf(t).ring[0] in RightLeaf(t).ring;
    }
  }

  lemma {:induction false} RemoveHas(t: Trie, x: nat, lo: nat, h: nat)
    requires WF(t, lo, h) && Holds(t, x)
    ensures forall a, z :: Has(Remove(t, x), a, z) <==> Has(t, a, z) && a != x
    ensures forall a :: Holds(Remove(t, x), a) <==> Holds(t, a) && a != x
    decreases h
  {
    HasHolds(t.left);
    HasHolds(t.right);
    if x in t.ring {
      RemoveHereHas(t, x, lo, h);
    } else if Holds(t.left, x) {
      RemoveHas(t.left, x, lo, h - 1);
    } else {
      RemoveHas(t.right, x, lo + Pow2(h - 1), h - 1);
    }
  }

  /** Removal keeps the trie well-formed. */
  lemma {:induction false} RemoveWF(t: Trie, x: nat, lo: nat, h: nat)
    requires WF(t, lo, h) && Holds(t, x)
    ensures WF(Remove(t, x), lo, h)
    decreases h
  {
    if x in t.ring {
      RemoveHereWF(t, x, lo, h);
    } else if Holds(t.left, x) {
      RemoveWF(t.left, x, lo, h - 1);
      RemoveHas(t.left, x, lo, h - 1);
    } else {
      RemoveWF(t.right, x, lo + Pow2(h - 1), h - 1);
      RemoveHas(t.right, x, lo + Pow2(h - 1), h - 1);
    }
  }

  // ----- the smallest chunk

  function Leftmost(t: Trie): (c: Trie)
    requires t.Node?
  {
    if t.left.Node? then t.left else t.right
  }

  /** The least size on the path of leftmost children. */
  function Least(t: Trie): (z: nat)
    requires t.Node?
  {
    var c := Leftmost(t);
    if c.Nil? || t.size <= Least(c) then t.size else Least(c)
  }

  /** The path of leftmost children meets the least size of the whole trie. */
  lemma {:induction false} LeastIsLeast(t: Trie, lo: nat, h: nat)
    requires t.Node? && WF(t, lo, h)
    ensures forall a, z :: Has(t, a, z) ==> Least(t) <= z
    ensures exists a: nat :: Has(t, a, Least(t))
    decreases h
  {
    var c := Leftmost(t);
    assert Has(t, t.ring[0], t.size);
    if c.Node? {
      assert h > 0;
      LeastIsLeast(c, if t.left.Node? then lo else lo + Pow2(h - 1), h - 1);
      var a: nat :| Has(c, a, Least(c));
      assert Has(t, a, Least(c));
      SizesInBlock(t.left, lo, h - 1);
      SizesInBlock(t.right, lo + Pow2(h - 1), h - 1);
    }
  }
}
