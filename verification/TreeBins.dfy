/** The tree bins of the allocator: free large chunks linked into tries, updated in place. */
module TreeBins {
  import opened Words
  import opened TreeSizes
  import opened Tries
  import opened TreeRep
  import opened TreeSurgery

  /** Bin i: a represented trie over the sizes of the bin, flagged in the bin map iff non-empty. */
  ghost predicate BinOk(m: Memory, t: Trie, root: nat, marked: bool, i: nat)
    requires i < NTREEBINS
  {
    && Rep(m, t, root, InBin(i), i)
    && WF(t, SpanLow(i), SpanBits(i))
    && (marked <==> t.Node?)
    && (forall a, z :: Has(t, a, z) ==> MIN_LARGE_SIZE <= z < WORD && TreeIndex(z) == i)
  }

  ghost predicate BinsOk(m: Memory, tries: seq<Trie>, bins: seq<nat>, treemap: set<nat>) {
    && |bins| == NTREEBINS && |tries| == NTREEBINS
    && (forall i :: i in treemap ==> i < NTREEBINS)
    && (forall i: nat | i < NTREEBINS :: BinOk(m, tries[i], bins[i], i in treemap, i))
    && (forall i: nat, j: nat | i < j < NTREEBINS :: Apart(tries[i], tries[j]))
  }

  /** Chunk a of size z is in a tree bin. */
  ghost predicate StoredIn(tries: seq<Trie>, a: int, z: int)
    requires |tries| == NTREEBINS
  {
    MIN_LARGE_SIZE <= z < WORD && Has(tries[TreeIndex(z)], a, z)
  }

  class TreeBins {
    var mem: Memory
    var bins: seq<nat>
    var treemap: set<nat>
    ghost var tries: seq<Trie>

    ghost predicate Valid()
      reads this
      ensures Valid() ==> |tries| == NTREEBINS
    {
      BinsOk(mem, tries, bins, treemap)
    }

    ghost predicate Stored(a: int, z: int)
      requires |tries| == NTREEBINS
      reads this
    {
      StoredIn(tries, a, z)
    }

    constructor ()
      ensures Valid()
      ensures treemap == {} && tries == seq(NTREEBINS, _ => Nil)
    {
      mem := map[];
      bins := seq(NTREEBINS, _ => 0);
      treemap := {};
      tries := seq(NTREEBINS, _ => Nil);
    }

    /** An empty bin map means that no chunk is stored. */
    lemma EmptyMap(a: int, z: int)
      requires Valid() && treemap == {}
      ensures !Stored(a, z)
    {
      forall i: nat | i < NTREEBINS ensures tries[i] == Nil {
        assert BinOk(mem, tries[i], bins[i], i in treemap, i);
      }
    }

    /** Link chunk x of size s into the trie of its bin. */
    method InsertLargeChunk(x: nat, s: nat)
      requires Valid()
      requires x != 0 && MIN_LARGE_SIZE <= s < WORD && forall z :: !Stored(x, z)
      modifies this
      ensures Valid()
      ensures forall a, z :: Stored(a, z) <==> old(Stored(a, z)) || (a == x && z == s)
    {
      hide Pow2, SpanLow, TreeIndex, WF, StoredIn, Has, Holds, Insert;
      forall z
        ensures !StoredIn(tries, x, z)
      {
        assert !Stored(x, z);
      }
      NotHeld(mem, tries, bins, treemap, x);
      var i := TreeIndex(s);
      SizeInSpan(s);
      ghost var t0, m0 := tries[i], mem;
      ghost var low, bits := SpanLow(i), SpanBits(i);
      assert BinOk(m0, t0, bins[i], i in treemap, i);
      mem := mem[x := TreeChunk(s, x, x, 0, 0, NoParent, i)];
      if i !in treemap {
        treemap := treemap + {i};
        bins := bins[i := x];
        mem := mem[x := mem[x].(parent := InBin(i))];
        FirstInBin(mem, x, s, i);
      } else {
        RepFrame(m0, mem, t0, bins[i], InBin(i), i);
        LinkIntoTree(x, s, i, t0);
      }
      ghost var t1 := Insert(t0, x, s, low, bits);
      InsertHas(t0, x, s, low, bits);
      InsertWF(t0, x, s, low, bits);
      OtherBins(m0, mem, tries, old(bins), old(treemap), i, t1, bins[i], treemap, x);
      assert bins == old(bins)[i := bins[i]];
      OneMore(tries, i, t1, x, s);
      ghost var was := tries;
      tries := tries[i := t1];
      forall a, z ensures Stored(a, z) <==> old(Stored(a, z)) || (a == x && z == s) {
        assert StoredIn(tries, a, z) <==> StoredIn(was, a, z) || (a == x && z == s);
      }
    }

    /** Link x where the descent along the bits of s ends: in an empty slot or a ring of the same size. */
    method LinkIntoTree(x: nat, s: nat, i: nat, ghost t0: Trie)
      requires i < NTREEBINS && i < |bins| && x != 0 && !Holds(t0, x) && t0.Node?
      requires SpanLow(i) <= s < SpanLow(i) + Pow2(SpanBits(i))
      requires WF(t0, SpanLow(i), SpanBits(i)) && Rep(mem, t0, bins[i], InBin(i), i)
      requires x in mem && mem[x] == TreeChunk(s, x, x, 0, 0, NoParent, i)
      modifies this`mem
      ensures Rep(mem, Insert(t0, x, s, SpanLow(i), SpanBits(i)), bins[i], InBin(i), i)
      ensures forall a: nat :: a in old(mem) && !Holds(t0, a) && a != x ==> a in mem && mem[a] == old(mem)[a]
    {
      hide Pow2, SpanLow, WF, Has, Ring, Sub, PtrAt, UpAt, OnPath;
      ghost var m, root := mem, bins[i];
      var t, right;
      ghost var path, lo: nat, h: nat;
      t, right, path, lo, h := FindSlot(s, i, x, t0);
      ghost var sub, up := Sub(t0, path), UpAt(m, t0, root, InBin(i), path);
      RepAt(m, t0, root, InBin(i), i, path);
      SubHolds(t0, path);
      assert t in sub.ring;
      if mem[t].size != s {
        Extend(m, t0, root, InBin(i), i, path, right);
        GraftTwice(t0, path, right, Node(s, [x], Nil, Nil));
        mem := mem[t := if right then mem[t].(child1 := x) else mem[t].(child0 := x)];
        mem := mem[x := mem[x].(parent := InNode(t))];
        LinkSlot(m, mem, t0, root, i, path, right, x, s, t, SpanLow(i), SpanBits(i));
      } else {
        RingIn(m, sub.ring, sub.size, up, i);
        var f := mem[t].fd;
        assert f in sub.ring;
        mem := mem[t := mem[t].(fd := x)];
        mem := mem[f := mem[f].(bk := x)];
        mem := mem[x := mem[x].(fd := f, bk := t, parent := NoParent)];
        ChainedRep(m, mem, sub, t, up, i, x, lo, h);
        RepReplace(m, mem, t0, root, InBin(i), i, path, Insert(sub, x, s, lo, h), SpanLow(i), SpanBits(i));
      }
    }

    /** Descend along the bits of s to a node of that size, or to a node without a child on that side. */
    method FindSlot(s: nat, i: nat, ghost x: nat, ghost t0: Trie)
      returns (t: nat, right: bool, ghost path: Path, ghost lo: nat, ghost h: nat)
      requires i < NTREEBINS && i < |bins| && t0.Node?
      requires SpanLow(i) <= s < SpanLow(i) + Pow2(SpanBits(i))
      requires WF(t0, SpanLow(i), SpanBits(i)) && Rep(mem, t0, bins[i], InBin(i), i)
      ensures OnPath(t0, path) && Sub(t0, path).Node? && t == PtrAt(mem, t0, bins[i], path) && t in mem
      ensures WF(Sub(t0, path), lo, h) && lo <= s < lo + Pow2(h)
      ensures Insert(t0, x, s, SpanLow(i), SpanBits(i)) == Graft(t0, path, Insert(Sub(t0, path), x, s, lo, h))
      ensures mem[t].size == Sub(t0, path).size
      ensures mem[t].size != s ==> h > 0 && right == !GoesLeft(s, lo, h)
      ensures mem[t].size != s ==> (if right then Sub(t0, path).right else Sub(t0, path).left).Nil?
    {
      hide Shl64, Block, Pow2, SpanLow, MinSizeForTreeIndex, WF, Has, Insert, Ring;
      ghost var low, bits, root := SpanLow(i), SpanBits(i), bins[i];
      SpanAligned(i);
      t, right := bins[i], false;
      var k := Shl64(s, LeftShiftForTreeIndex(i));
      path, lo, h := [], low, bits;
      ghost var sub := t0;
      while true
        invariant OnPath(t0, path) && sub == Sub(t0, path) && sub.Node?
        invariant t == PtrAt(mem, t0, root, path)
        invariant h <= 64 && WF(sub, lo, h) && lo <= s < lo + Pow2(h) && Block(lo, h)
        invariant k == Shl64(s, 64 - h)
        invariant Insert(t0, x, s, low, bits) == Graft(t0, path, Insert(sub, x, s, lo, h))
        decreases h
      {
        RepAt(mem, t0, root, InBin(i), i, path);
        if mem[t].size == s { break; }
        MoreBits(sub, s, lo, h);
        Turn(s, lo, h);
        right := k / TOP_BIT % 2 == 1;
        assert right == !GoesLeft(s, lo, h);
        k := 2 * k % WORD;
        var c := if right then mem[t].child1 else mem[t].child0;
        if c == 0 { break; }
        Extend(mem, t0, root, InBin(i), i, path, right);
        ghost var child := if right then sub.right else sub.left;
        ghost var clo := if right then lo + Pow2(h - 1) else lo;
        InsertBelow(sub, x, s, lo, h, right, clo);
        GraftTwice(t0, path, right, Insert(child, x, s, clo, h - 1));
        t := c;
        path, sub, lo, h := path + [right], child, clo, h - 1;
      }
    }

    /** Unlink a chunk from its tree bin, replacing it by a chunk of its ring or by a leaf below it. */
    method UnlinkLargeChunk(x: nat)
      requires Valid() && exists z :: Stored(x, z)
      modifies this
      ensures Valid()
      ensures forall a, z :: Stored(a, z) <==> old(Stored(a, z)) && a != x
    {
      hide Pow2, SpanLow, TreeIndex, WF, Rep, RemoveHere, Joined, Detached, Has, Graft, StoredIn, Holds;
      ghost var i := HeldIn(mem, tries, bins, treemap, x);
      ghost var t0, m0, root := tries[i], mem, bins[i];
      assert BinOk(m0, t0, root, i in treemap, i);
      ghost var low, bits := SpanLow(i), SpanBits(i);
      ghost var path := Locate(t0, x);
      ghost var sub := Sub(t0, path);
      ghost var u := RemoveHere(sub, x);
      ghost var slo, sh := SubWF(t0, path, low, bits);
      RepAt(m0, t0, root, InBin(i), i, path);
      ghost var up := UpAt(m0, t0, root, InBin(i), path);
      RemoveHereHas(sub, x, slo, sh);
      RemoveHereWF(sub, x, slo, sh);
      RemoveHas(t0, x, low, bits);
      RemoveWF(t0, x, low, bits);
      RingFacts(m0, sub, PtrAt(m0, t0, root, path), up, i, x, slo, sh);

      var xp, idx, r := mem[x].parent, mem[x].index, 0;
      if mem[x].bk != x {
        if xp == NoParent {
          UnchainRep(m0, t0, root, i, path, x, low, bits, slo, sh);
        } else {
          DetachHead(m0, sub, x, up, i, slo, sh);
        }
        r := mem[x].bk;
        JoinNeighbours(x);
      } else {
        r := DetachReplacement(x, sub, up, i, slo, sh);
      }
      if xp != NoParent {
        Replant(x, xp, r, idx, m0, t0, path, u, slo, sh);
      }
      OtherBins(m0, mem, tries, old(bins), old(treemap), i, Remove(t0, x), bins[i], treemap, x);
      assert bins == old(bins)[i := bins[i]];
      OneLess(tries, i, Remove(t0, x), x);
      ghost var was := tries;
      tries := tries[i := Remove(t0, x)];
      forall a, z ensures Stored(a, z) <==> old(Stored(a, z)) && a != x {
        assert StoredIn(tries, a, z) <==> StoredIn(was, a, z) && a != x;
      }
    }

    /** Take x out of the links of its ring. */
    method JoinNeighbours(x: nat)
      requires x in mem && mem[x].fd in mem && mem[x].bk in mem
      modifies this`mem
      ensures mem == Joined(old(mem), old(mem[x].fd), old(mem[x].bk))
    {
      var f, r := mem[x].fd, mem[x].bk;
      mem := mem[f := mem[f].(bk := r)];
      mem := mem[r := mem[r].(fd := f)];
    }

    /** Find a leaf below x to replace it and clear the slot that held the leaf; 0 if x has no children. */
    method DetachReplacement(x: nat, ghost sub: Trie, ghost up: Parent, ghost i: nat, ghost lo: nat, ghost h: nat)
      returns (r: nat)
      requires Rep(mem, sub, x, up, i) && WF(sub, lo, h) && sub.Node? && sub.ring == [x]
      modifies this`mem
      ensures Detached(old(mem), mem, sub, x, RemoveHere(sub, x), r, i)
    {
      hide WF;
      ghost var m := mem;
      var slot, right := x, true;
      r := mem[x].child1;
      if r == 0 {
        right := false;
        r := mem[x].child0;
      }
      if r != 0 {
        ghost var lp: Path := [right];
        ghost var c := if right then sub.right else sub.left;
        Extend(m, sub, x, up, i, [], right);
        GraftTwice(sub, [], right, Prune(c));
        assert [] + [right] == lp;
        while mem[r].child1 != 0 || mem[r].child0 != 0
          invariant mem == m
          invariant OnPath(sub, lp) && lp != [] && c == Sub(sub, lp) && c.Node? && lp[|lp| - 1] == right
          invariant r == PtrAt(m, sub, x, lp) && InNode(slot) == UpAt(m, sub, x, up, lp)
          invariant Rep(m, c, r, InNode(slot), i) && slot in m
          invariant RightLeaf(sub) == RightLeaf(c) && Prune(sub) == Graft(sub, lp, Prune(c))
          decreases c
        {
          slot := r;
          if mem[r].child1 != 0 {
            right := true;
            r := mem[r].child1;
          } else {
            right := false;
            r := mem[r].child0;
          }
          Extend(m, sub, x, up, i, lp, right);
          ghost var d := if right then c.right else c.left;
          GraftTwice(sub, lp, right, Prune(d));
          lp, c := lp + [right], d;
        }
        mem := mem[slot := if right then mem[slot].(child1 := 0) else mem[slot].(child0 := 0)];
        DetachLeaf(m, mem, sub, x, up, i, lp, r, slot, lo, h);
      }
    }

    /** Hang the replacement r where x was and give it the children of x. */
    method Replant(x: nat, xp: Parent, r: nat, i: nat, ghost m0: Memory, ghost t0: Trie, ghost path: Path, ghost u: Trie,
                   ghost slo: nat, ghost sh: nat)
      requires i < NTREEBINS && |bins| == NTREEBINS
      requires Rep(m0, t0, bins[i], InBin(i), i) && WF(t0, SpanLow(i), SpanBits(i)) && OnPath(t0, path)
      requires Sub(t0, path).Node? && x == PtrAt(m0, t0, bins[i], path) && xp == UpAt(m0, t0, bins[i], InBin(i), path)
      requires Detached(m0, mem, Sub(t0, path), x, u, r, i) && WF(u, slo, sh)
      requires forall a :: Holds(u, a) ==> Holds(Sub(t0, path), a) && a != x
      requires i in treemap
      modifies this`mem, this`bins, this`treemap
      ensures |bins| == NTREEBINS && bins == old(bins)[i := bins[i]]
      ensures forall j :: j != i ==> (j in treemap <==> j in old(treemap))
      ensures Rep(mem, Graft(t0, path, u), bins[i], InBin(i), i)
      ensures i in treemap <==> Graft(t0, path, u).Node?
      ensures forall a: nat :: a in m0 && !Holds(t0, a) ==> a in mem && mem[a] == m0[a]
    {
      hide WF, SpanLow, Pow2, Ring, Promoted, Has;
      ghost var m1, sub := mem, Sub(t0, path);
      RepAt(m0, t0, bins[i], InBin(i), i, path);
      SubHolds(t0, path);
      if path != [] { SlotAt(m0, t0, bins[i], InBin(i), i, path, SpanLow(i), SpanBits(i)); }
      if x == bins[i] {
        bins := bins[i := r];
        if r == 0 {
          treemap := treemap - {i};
        }
        ReplantRoot(m0, m1, sub, x, xp, i, u, r, slo, sh);
      } else {
        UpOutside(m0, t0, bins[i], InBin(i), i, path, SpanLow(i), SpanBits(i));
        if mem[xp.addr].child0 == x {
          mem := mem[xp.addr := mem[xp.addr].(child0 := r)];
        } else {
          mem := mem[xp.addr := mem[xp.addr].(child1 := r)];
        }
        ReplantBelow(m0, m1, mem, t0, bins[i], i, path, x, u, r, SpanLow(i), SpanBits(i), slo, sh);
      }
      if r != 0 {
        AdoptChildren(x, xp, r);
      }
    }

    /** Chunk r takes over the parent and the children of x. */
    method AdoptChildren(x: nat, xp: Parent, r: nat)
      requires x in mem && r in mem
      requires mem[x].child0 != 0 ==> mem[x].child0 in mem
      requires mem[x].child1 != 0 ==> mem[x].child1 in mem
      modifies this`mem
      ensures mem == Promoted(old(mem), x, r, xp)
    {
      var c0, c1 := mem[x].child0, mem[x].child1;
      mem := mem[r := mem[r].(parent := xp)];
      if c0 != 0 {
        mem := mem[r := mem[r].(child0 := c0)];
        mem := mem[c0 := mem[c0].(parent := InNode(r))];
      }
      if c1 != 0 {
        mem := mem[r := mem[r].(child1 := c1)];
        mem := mem[c1 := mem[c1].(parent := InNode(r))];
      }
    }

    /**
     * The search of a large request: the smallest stored chunk of size at least nb, or 0.  As in the
     * allocator, `rsize` is the excess, and it starts at -nb, larger than any excess.
     */
    method SmallestFit(nb: nat) returns (v: nat, rsize: nat)
      requires Valid() && MIN_LARGE_SIZE <= nb < WORD
      ensures v == 0 ==> rsize == WORD - nb && forall a, z :: Stored(a, z) ==> z < nb
      ensures v != 0 ==> Stored(v, nb + rsize) && forall a, z :: Stored(a, z) && z >= nb ==> nb + rsize <= z
    {
      hide Pow2, SpanLow, SpanBits, TreeIndex, WF, Rep, Least;
      var idx := TreeIndex(nb);
      assert BinOk(mem, tries[idx], bins[idx], idx in treemap, idx);
      ChildIn(mem, tries[idx], bins[idx], InBin(idx), idx);
      var t := 0;
      ghost var g := Nil;
      v, rsize := 0, Sub64(0, nb);
      if bins[idx] != 0 {
        v, rsize, t, g := DescendForFit(nb, idx);
      }
      ghost var i := idx;
      if t == 0 && v == 0 {
        var leftbits := set j | j in treemap && j > idx;
        if leftbits != {} {
          var k := LeastBit(leftbits);
          assert BinOk(mem, tries[k], bins[k], k in treemap, k);
          t, g, i := bins[k], tries[k], k;
          ChildIn(mem, g, t, InBin(k), k);
        }
        CoverNext(mem, tries, bins, treemap, nb, leftbits, g, i);
      } else {
        CoverOwn(mem, tries, bins, treemap, nb, v, rsize, g);
      }
      assert Covers(tries, nb, rsize, g);
      HasStored(mem, tries, bins, treemap, i);
      if t != 0 {
        v, rsize := LeastBelow(t, nb, v, rsize, g, i);
      }
    }

    /**
     * The descent towards size nb in its own bin.  Returns the best chunk met so far and the deepest
     * right subtree that was passed by, where the only better fits can be.
     */
    method DescendForFit(nb: nat, idx: nat) returns (v: nat, rsize: nat, t: nat, ghost g: Trie)
      requires MIN_LARGE_SIZE <= nb < WORD && idx == TreeIndex(nb) && idx < |bins| && idx < |tries|
      requires BinOk(mem, tries[idx], bins[idx], idx in treemap, idx) && bins[idx] != 0
      ensures t == 0 <==> g.Nil?
      ensures IsTree(mem, g, t, idx) && BestSoFar(tries[idx], nb, v, rsize, g)
    {
      hide Pow2, SpanLow, MinSizeForTreeIndex, TreeIndex, WF, Shl64, Block, Has, Least, Rep, IsTree;
      ghost var t0 := tries[idx];
      SizeInSpan(nb);
      SpanAligned(idx);
      ChildIn(mem, t0, bins[idx], InBin(idx), idx);
      v, rsize, t, g := 0, Sub64(0, nb), bins[idx], Nil;
      NilTree(mem, idx);
      assert Fit(t0, t0, nb, v, rsize, g, SpanLow(idx) + Pow2(SpanBits(idx)));
      hide Fit;
      var sizebits := Shl64(nb, LeftShiftForTreeIndex(idx));
      var rst := 0;
      ghost var sub, up: Parent, lo: nat, h: nat := t0, InBin(idx), SpanLow(idx), SpanBits(idx);
      while true
        invariant t != 0 && Rep(mem, sub, t, up, idx) && WF(sub, lo, h) && h <= 64
        invariant Block(lo, h) && lo <= nb < lo + Pow2(h) && sizebits == Shl64(nb, 64 - h)
        invariant rst == 0 <==> g.Nil?
        invariant IsTree(mem, g, rst, idx)
        invariant Fit(t0, sub, nb, v, rsize, g, lo + Pow2(h))
        decreases h
      {
        SubtreeFacts(mem, sub, t, up, idx, lo, h);
        FitRoot(t0, sub, t, nb, v, rsize, g, lo + Pow2(h));
        var trem := Sub64(mem[t].size, nb);
        if trem < rsize {
          v := t;
          rsize := trem;
          if rsize == 0 {
            g := sub;
            break;
          }
        }
        MoreBits(sub, nb, lo, h);
        Turn(nb, lo, h);
        var rt := mem[t].child1;
        var right := sizebits / TOP_BIT % 2 == 1;
        ghost var p := t;
        t := if right then mem[t].child1 else mem[t].child0;
        FitTurn(mem, t0, sub, p, up, idx, nb, v, rsize, g, rst, lo, h);
        if rt != 0 && rt != t {
          rst, g := rt, sub.right;
        }
        sub, up := if right then sub.right else sub.left, InNode(p);
        lo, h := if right then lo + Pow2(h - 1) else lo, h - 1;
        if t == 0 {
          t := rst;
          FitEnd(t0, nb, v, rsize, g, lo + Pow2(h));
          break;
        }
        sizebits := 2 * sizebits % WORD;
      }
    }

    /** Follow leftmost children from t, improving on the fit found so far. */
    method LeastBelow(t: nat, nb: nat, v0: nat, rsize0: nat, ghost g: Trie, ghost i: nat) returns (v: nat, rsize: nat)
      requires g.Node? && IsTree(mem, g, t, i) && nb < WORD && rsize0 < WORD
      requires forall a, z :: Has(g, a, z) ==> z < WORD && (rsize0 == 0 || nb <= z)
      ensures rsize <= rsize0
      ensures (v == v0 && rsize == rsize0) || (v != 0 && Has(g, v, nb + rsize))
      ensures rsize == 0 || nb + rsize <= Least(g)
    {
      hide WF;
      ghost var up, lo: nat, h: nat :| Rep(mem, g, t, up, i) && WF(g, lo, h);
      var t': nat := t;
      ghost var sub := g;
      v, rsize := v0, rsize0;
      while t' != 0
        invariant t' == 0 <==> sub.Nil?
        invariant Rep(mem, sub, t', up, i) && WF(sub, lo, h)
        invariant forall a, z :: Has(sub, a, z) ==> Has(g, a, z)
        invariant rsize <= rsize0 && ((v == v0 && rsize == rsize0) || (v != 0 && Has(g, v, nb + rsize)))
        invariant rsize == 0 || nb + rsize <= Least(g) || (sub.Node? && Least(sub) == Least(g))
        decreases sub
      {
        SubtreeFacts(mem, sub, t', up, i, lo, h);
        assert Has(g, t', sub.size);
        var trem := Sub64(mem[t'].size, nb);
        if trem < rsize {
          rsize := trem;
          v := t';
        }
        LeftmostFacts(mem, sub, t', up, i, lo, h);
        ghost var c := Leftmost(sub);
        up, lo, h := InNode(t'), if sub.left.Node? || h == 0 then lo else lo + Pow2(h - 1), if h == 0 then 0 else h - 1;
        t' := if mem[t'].child0 != 0 then mem[t'].child0 else mem[t'].child1;
        sub := c;
      }
    }

    /** The search of a small request: the smallest chunk of all tree bins. */
    method SmallestChunk(nb: nat) returns (v: nat, rsize: nat)
      requires Valid() && treemap != {} && nb <= MIN_LARGE_SIZE
      ensures Stored(v, nb + rsize) && forall a, z :: Stored(a, z) ==> nb + rsize <= z
    {
      hide Pow2, SpanLow, SpanBits, TreeIndex, WF;
      var i := LeastBit(treemap);
      ghost var g := tries[i];
      assert BinOk(mem, g, bins[i], i in treemap, i);
      ChildIn(mem, g, bins[i], InBin(i), i);
      SubtreeFacts(mem, g, bins[i], InBin(i), i, SpanLow(i), SpanBits(i));
      LeftmostFacts(mem, g, bins[i], InBin(i), i, SpanLow(i), SpanBits(i));
      var t := bins[i];
      v, rsize := t, mem[t].size - nb;
      assert Has(g, v, nb + rsize);
      t := if mem[t].child0 != 0 then mem[t].child0 else mem[t].child1;
      if t != 0 {
        v, rsize := LeastBelow(t, nb, v, rsize, Leftmost(g), i);
      }
      LeastOfFirstBin(mem, tries, bins, treemap, i);
    }
  }

  /** The position of the least set bit of a bin map. */
  method LeastBit(bits: set<nat>) returns (i: nat)
    requires bits != {}
    ensures i in bits && forall j :: j in bits ==> i <= j
  {
    ghost var k :| k in bits;
    i := 0;
    while i !in bits
      invariant i <= k && forall j :: j in bits ==> i <= j
      decreases k - i
    {
      i := i + 1;
    }
  }

  /** Pointer t of bin i is the root of trie g, wherever it hangs. */
  ghost predicate IsTree(m: Memory, g: Trie, t: nat, i: nat) {
    exists up, lo: nat, h: nat :: Rep(m, g, t, up, i) && WF(g, lo, h)
  }

  /** Of the chunks of t0 that fit nb, (v, rsize) is best except possibly for the least chunk of g. */
  ghost predicate BestSoFar(t0: Trie, nb: nat, v: nat, rsize: nat, g: Trie) {
    && rsize < WORD
    && (v == 0 ==> rsize == WORD - nb) && (v != 0 ==> Has(t0, v, nb + rsize))
    && (forall a, z :: Has(g, a, z) ==> Has(t0, a, z) && (rsize == 0 || nb <= z))
    && (forall a, z :: Has(t0, a, z) && z >= nb ==> nb + rsize <= z || (g.Node? && Least(g) <= z))
  }

  /** The same over all bins. */
  ghost predicate Covers(tries: seq<Trie>, nb: nat, rsize: nat, g: Trie)
    requires |tries| == NTREEBINS
  {
    forall a, z :: StoredIn(tries, a, z) && z >= nb ==> nb + rsize <= z || (g.Node? && Least(g) <= z)
  }

  lemma NilTree(m: Memory, i: nat)
    ensures IsTree(m, Nil, 0, i) && forall a, z :: !Has(Nil, a, z)
  {
    assert Rep(m, Nil, 0, NoParent, i) && WF(Nil, 0, 0);
  }

  lemma SubtreeFacts(m: Memory, t: Trie, p: nat, up: Parent, i: nat, lo: nat, h: nat)
    requires Rep(m, t, p, up, i) && p != 0 && WF(t, lo, h)
    ensures t.Node? && p in m && m[p].size == t.size && Has(t, p, t.size)
    ensures Rep(m, t.left, m[p].child0, InNode(p), i) && Rep(m, t.right, m[p].child1, InNode(p), i)
    ensures IsTree(m, t, p, i)
  {
  }

  lemma LeftmostFacts(m: Memory, t: Trie, p: nat, up: Parent, i: nat, lo: nat, h: nat)
    requires Rep(m, t, p, up, i) && p != 0 && t.Node? && p in m && WF(t, lo, h)
    ensures var c := if m[p].child0 != 0 then m[p].child0 else m[p].child1;
      && Rep(m, Leftmost(t), c, InNode(p), i) && (c == 0 <==> Leftmost(t).Nil?)
      && WF(Leftmost(t), if t.left.Node? || h == 0 then lo else lo + Pow2(h - 1), if h == 0 then 0 else h - 1)
      && IsTree(m, Leftmost(t), c, i)
    ensures forall a, z :: Has(Leftmost(t), a, z) ==> Has(t, a, z)
  {
    ChildIn(m, t.left, m[p].child0, InNode(p), i);
    ChildIn(m, t.right, m[p].child1, InNode(p), i);
    var c := if m[p].child0 != 0 then m[p].child0 else m[p].child1;
    var l, d: nat := if t.left.Node? || h == 0 then lo else lo + Pow2(h - 1), if h == 0 then 0 else h - 1;
    assert Rep(m, Leftmost(t), c, InNode(p), i) && WF(Leftmost(t), l, d);
  }

  /** The state of the descent: fits are beaten by (v, rsize), below sub, or no better than the least of g. */
  ghost predicate Fit(t0: Trie, sub: Trie, nb: nat, v: nat, rsize: nat, g: Trie, hi: nat) {
    && 0 < rsize < WORD && nb < hi
    && (v == 0 ==> rsize == WORD - nb) && (v != 0 ==> Has(t0, v, nb + rsize))
    && (forall a, z :: Has(sub, a, z) ==> Has(t0, a, z))
    && (forall a, z :: Has(g, a, z) ==> Has(t0, a, z) && hi <= z)
    && (forall a, z :: Has(t0, a, z) && z >= nb ==> nb + rsize <= z || Has(sub, a, z) || (g.Node? && Least(g) <= z))
  }

  /** Comparing the root of sub with the best so far. */
  lemma FitRoot(t0: Trie, sub: Trie, t: nat, nb: nat, v: nat, rsize: nat, g: Trie, hi: nat)
    requires Fit(t0, sub, nb, v, rsize, g, hi) && t != 0 && sub.Node? && Has(sub, t, sub.size)
    requires nb < WORD && forall a, z :: Has(t0, a, z) ==> z < WORD
    ensures sub.size < WORD
    ensures var trem := Sub64(sub.size, nb);
      && (trem == 0 <==> sub.size == nb)
      && (trem == 0 ==> trem < rsize && BestSoFar(t0, nb, t, 0, sub))
      && (trem >= rsize ==> sub.size < nb || nb + rsize <= sub.size)
      && (0 < trem < rsize ==> Fit(t0, sub, nb, t, trem, g, hi) && nb + trem <= sub.size)
  {
    hide Least;
    assert Has(t0, t, sub.size);
  }

  /** One turn of the descent, remembering a right subtree that is passed by. */
  lemma FitTurn(m: Memory, t0: Trie, sub: Trie, p: nat, up: Parent, i: nat, nb: nat, v: nat, rsize: nat, g: Trie, rst: nat,
                lo: nat, h: nat)
    requires sub.Node? && Fit(t0, sub, nb, v, rsize, g, lo + Pow2(h)) && (sub.size < nb || nb + rsize <= sub.size)
    requires h > 0 && lo <= nb < lo + Pow2(h) && Pow2(h) == 2 * Pow2(h - 1)
    requires sub.Node? && Rep(m, sub, p, up, i) && p in m && WF(sub, lo, h) && IsTree(m, g, rst, i)
    ensures Rep(m, sub.left, m[p].child0, InNode(p), i) && Rep(m, sub.right, m[p].child1, InNode(p), i)
    ensures (m[p].child0 == 0 <==> sub.left.Nil?) && (m[p].child1 == 0 <==> sub.right.Nil?)
    ensures m[p].child1 != 0 ==> m[p].child0 != m[p].child1 && IsTree(m, sub.right, m[p].child1, i)
    ensures if GoesLeft(nb, lo, h)
      then Fit(t0, sub.left, nb, v, rsize, if sub.right.Node? then sub.right else g, lo + Pow2(h - 1))
      else Fit(t0, sub.right, nb, v, rsize, g, lo + Pow2(h - 1) + Pow2(h - 1))
  {
    hide Fit, Least, Pow2;
    var mid := lo + Pow2(h - 1);
    assert WF(sub.left, lo, h - 1) && WF(sub.right, mid, h - 1);
    ChildIn(m, sub.left, m[p].child0, InNode(p), i);
    ChildIn(m, sub.right, m[p].child1, InNode(p), i);
    assert Rep(m, sub.right, m[p].child1, InNode(p), i) && WF(sub.right, mid, h - 1);
    if GoesLeft(nb, lo, h) {
      FitLeft(m, t0, sub, i, nb, v, rsize, g, rst, lo, h);
    } else {
      FitRight(t0, sub, nb, v, rsize, g, lo, h);
    }
  }

  lemma FitRight(t0: Trie, sub: Trie, nb: nat, v: nat, rsize: nat, g: Trie, lo: nat, h: nat)
    requires sub.Node? && Fit(t0, sub, nb, v, rsize, g, lo + Pow2(h)) && (sub.size < nb || nb + rsize <= sub.size)
    requires h > 0 && lo + Pow2(h - 1) <= nb && Pow2(h) == 2 * Pow2(h - 1)
    requires sub.Node? && WF(sub, lo, h)
    ensures Fit(t0, sub.right, nb, v, rsize, g, lo + Pow2(h - 1) + Pow2(h - 1))
  {
    SizesInBlock(sub.left, lo, h - 1);
    var mid := lo + Pow2(h - 1);
    hide WF, Least, Pow2;
    forall a, z | Has(t0, a, z) && z >= nb
      ensures nb + rsize <= z || Has(sub.right, a, z) || (g.Node? && Least(g) <= z)
    {
      assert Has(sub.left, a, z) ==> z < mid;
    }
  }

  lemma FitLeft(m: Memory, t0: Trie, sub: Trie, i: nat, nb: nat, v: nat, rsize: nat, g: Trie, rst: nat, lo: nat, h: nat)
    requires sub.Node? && Fit(t0, sub, nb, v, rsize, g, lo + Pow2(h)) && (sub.size < nb || nb + rsize <= sub.size)
    requires h > 0 && nb < lo + Pow2(h - 1) && Pow2(h) == 2 * Pow2(h - 1)
    requires sub.Node? && WF(sub, lo, h) && IsTree(m, g, rst, i)
    ensures Fit(t0, sub.left, nb, v, rsize, if sub.right.Node? then sub.right else g, lo + Pow2(h - 1))
  {
    hide WF, Least, Pow2, IsTree;
    var mid := lo + Pow2(h - 1);
    RightBlock(sub, lo, h);
    SizesInBlock(sub.right, mid, h - 1);
    var g' := if sub.right.Node? then sub.right else g;
    if sub.right.Node? { LeastBound(m, g, rst, i, sub.right, mid, h - 1); }
    forall a, z | Has(t0, a, z) && z >= nb
      ensures nb + rsize <= z || Has(sub.left, a, z) || (g'.Node? && Least(g') <= z)
    {
      assert Has(sub.right, a, z) ==> sub.right.Node?;
    }
  }

  lemma RightBlock(t: Trie, lo: nat, h: nat)
    requires t.Node? && WF(t, lo, h) && h > 0
    ensures WF(t.right, lo + Pow2(h - 1), h - 1)
  {
  }

  lemma FitEnd(t0: Trie, nb: nat, v: nat, rsize: nat, g: Trie, hi: nat)
    requires Fit(t0, Nil, nb, v, rsize, g, hi)
    ensures BestSoFar(t0, nb, v, rsize, g)
  {
  }

  /** Everything in the earlier passed-by subtree is larger than the least chunk of the new one. */
  lemma LeastBound(m: Memory, g: Trie, rst: nat, i: nat, r: Trie, lo: nat, h: nat)
    requires r.Node? && WF(r, lo, h) && IsTree(m, g, rst, i)
    requires forall a, z :: Has(g, a, z) ==> lo + Pow2(h) <= z
    ensures g.Node? ==> Least(r) <= Least(g)
    ensures forall a, z :: Has(r, a, z) ==> Least(r) <= z
  {
    LeastIsLeast(r, lo, h);
    SizesInBlock(r, lo, h);
    if g.Node? {
      var up, l: nat, d: nat :| Rep(m, g, rst, up, i) && WF(g, l, d);
      LeastIsLeast(g, l, d);
    }
  }

  lemma HasStored(m: Memory, tries: seq<Trie>, bins: seq<nat>, treemap: set<nat>, i: nat)
    requires BinsOk(m, tries, bins, treemap) && i < NTREEBINS
    ensures forall a, z :: Has(tries[i], a, z) ==> StoredIn(tries, a, z) && z < WORD
  {
    assert BinOk(m, tries[i], bins[i], i in treemap, i);
  }

  lemma CoverOwn(m: Memory, tries: seq<Trie>, bins: seq<nat>, treemap: set<nat>, nb: nat, v: nat, rsize: nat, g: Trie)
    requires BinsOk(m, tries, bins, treemap) && MIN_LARGE_SIZE <= nb < WORD
    requires BestSoFar(tries[TreeIndex(nb)], nb, v, rsize, g) && (v != 0 || g.Node?)
    requires g.Node? ==> exists t :: IsTree(m, g, t, TreeIndex(nb))
    ensures Covers(tries, nb, rsize, g)
  {
    hide WF, Rep, TreeIndex, Least;
    var idx := TreeIndex(nb);
    HasStored(m, tries, bins, treemap, idx);
    if g.Node? {
      var t :| IsTree(m, g, t, idx);
      var up, l: nat, d: nat :| Rep(m, g, t, up, idx) && WF(g, l, d);
      LeastIsLeast(g, l, d);
    }
    forall a, z | StoredIn(tries, a, z) && z >= nb
      ensures nb + rsize <= z || (g.Node? && Least(g) <= z)
    {
      assert BinOk(m, tries[TreeIndex(z)], bins[TreeIndex(z)], TreeIndex(z) in treemap, TreeIndex(z));
      if TreeIndex(z) < idx { BinsOrdered(z, nb); }
      if TreeIndex(z) > idx {
        if v != 0 {
          BinsOrdered(nb + rsize, z);
        } else {
          var b: nat :| Has(g, b, Least(g));
          BinsOrdered(Least(g), z);
        }
      }
    }
  }

  lemma CoverNext(m: Memory, tries: seq<Trie>, bins: seq<nat>, treemap: set<nat>, nb: nat, leftbits: set<nat>,
                  g: Trie, i: nat)
    requires BinsOk(m, tries, bins, treemap) && MIN_LARGE_SIZE <= nb < WORD
    requires forall a, z :: Has(tries[TreeIndex(nb)], a, z) ==> z < nb
    requires leftbits == set j | j in treemap && j > TreeIndex(nb)
    requires leftbits == {} ==> g.Nil?
    requires leftbits != {} ==> i in leftbits && g == tries[i] && forall j :: j in leftbits ==> i <= j
    ensures Covers(tries, nb, WORD - nb, g)
    ensures forall a, z :: Has(g, a, z) ==> nb <= z < WORD
  {
    hide WF, Rep, TreeIndex, Least;
    var idx := TreeIndex(nb);
    if leftbits != {} {
      assert BinOk(m, tries[i], bins[i], i in treemap, i);
      LeastIsLeast(g, SpanLow(i), SpanBits(i));
      forall a, z | Has(g, a, z)
        ensures nb <= z < WORD
      {
        BinsOrdered(nb, z);
      }
    }
    forall a, z | StoredIn(tries, a, z) && z >= nb
      ensures nb + (WORD - nb) <= z || (g.Node? && Least(g) <= z)
    {
      var k := TreeIndex(z);
      assert BinOk(m, tries[k], bins[k], k in treemap, k);
      if k < idx { BinsOrdered(z, nb); }
      assert k in leftbits;
      if i < k {
        var b: nat :| Has(g, b, Least(g));
        BinsOrdered(Least(g), z);
      }
    }
  }

  lemma LeastOfFirstBin(m: Memory, tries: seq<Trie>, bins: seq<nat>, treemap: set<nat>, i: nat)
    requires BinsOk(m, tries, bins, treemap) && i in treemap && forall j :: j in treemap ==> i <= j
    ensures tries[i].Node? && forall a, z :: StoredIn(tries, a, z) ==> Least(tries[i]) <= z
    ensures forall a, z :: Has(tries[i], a, z) ==> StoredIn(tries, a, z)
  {
    hide WF, Rep, TreeIndex, Least;
    var g := tries[i];
    assert BinOk(m, g, bins[i], i in treemap, i);
    LeastIsLeast(g, SpanLow(i), SpanBits(i));
    forall a, z | StoredIn(tries, a, z)
      ensures Least(g) <= z
    {
      var k := TreeIndex(z);
      assert BinOk(m, tries[k], bins[k], k in treemap, k);
      if i < k {
        var b: nat :| Has(g, b, Least(g));
        BinsOrdered(Least(g), z);
      }
    }
  }

  /** What the ring fields of a chunk say about its place in the ring. */
  lemma RingFacts(m: Memory, sub: Trie, p: nat, up: Parent, i: nat, x: nat, lo: nat, h: nat)
    requires Rep(m, sub, p, up, i) && WF(sub, lo, h) && sub.Node? && x in sub.ring && up != NoParent
    ensures x in m && m[x].index == i && m[x].fd in m && m[x].bk in m
    ensures m[x].parent == NoParent <==> x != p
    ensures m[x].bk == x ==> x == p
    ensures x == p ==> m[x].parent == up && (m[x].bk != x <==> |sub.ring| > 1) && (|sub.ring| == 1 ==> sub.ring == [x])
    ensures x != 0
  {
    var n := |sub.ring|;
    var j: nat :| j < n && sub.ring[j] == x;
    assert Member(m, sub.ring, j, sub.size, up, i);
    assert Member(m, sub.ring, Succ(j, n), sub.size, up, i);
    assert Member(m, sub.ring, Pred(j, n), sub.size, up, i);
  }

  /** Unlinking a chained chunk changes one ring of the trie. */
  lemma UnchainRep(m: Memory, t0: Trie, root: nat, i: nat, path: Path, x: nat, lo: nat, h: nat, slo: nat, sh: nat)
    requires Rep(m, t0, root, InBin(i), i) && WF(t0, lo, h) && OnPath(t0, path)
    requires Sub(t0, path).Node? && WF(Sub(t0, path), slo, sh)
    requires x in Sub(t0, path).ring && x != PtrAt(m, t0, root, path)
    ensures x in m && m[x].fd in m && m[x].bk in m
    ensures var m' := Joined(m, m[x].fd, m[x].bk);
      && Rep(m', Graft(t0, path, RemoveHere(Sub(t0, path), x)), root, InBin(i), i)
      && Graft(t0, path, RemoveHere(Sub(t0, path), x)).Node?
      && (forall a: nat :: a in m && !Holds(t0, a) ==> a in m' && m'[a] == m[a])
  {
    hide WF, RemoveHere, Joined;
    var sub, p := Sub(t0, path), PtrAt(m, t0, root, path);
    var up := UpAt(m, t0, root, InBin(i), path);
    RepAt(m, t0, root, InBin(i), i, path);
    SubHolds(t0, path);
    UnchainSub(m, sub, p, up, i, x, slo, sh);
    RepReplace(m, Joined(m, m[x].fd, m[x].bk), t0, root, InBin(i), i, path, RemoveHere(sub, x), lo, h);
  }

  lemma UnchainSub(m: Memory, sub: Trie, p: nat, up: Parent, i: nat, x: nat, lo: nat, h: nat)
    requires sub.Node? && Rep(m, sub, p, up, i) && WF(sub, lo, h) && x in sub.ring && x != p
    ensures x in m && m[x].fd in m && m[x].bk in m && RemoveHere(sub, x).Node?
    ensures Rep(Joined(m, m[x].fd, m[x].bk), RemoveHere(sub, x), p, up, i)
    ensures forall a: nat :: a in m && !Holds(sub, a) ==>
      a in Joined(m, m[x].fd, m[x].bk) && Joined(m, m[x].fd, m[x].bk)[a] == m[a]
  {
    var j: nat :| j < |sub.ring| && sub.ring[j] == x;
    RingUnchain(m, sub.ring, x, sub.size, up, i, j);
    var m' := Joined(m, m[x].fd, m[x].bk);
    RepFrame(m, m', sub.left, m[p].child0, InNode(p), i);
    RepFrame(m, m', sub.right, m[p].child1, InNode(p), i);
    assert Member(m', Without(sub.ring, x), 0, sub.size, up, i);
    assert m'[p].child0 == m[p].child0 && m'[p].child1 == m[p].child1;
  }

  /** Hanging x into the empty child slot at the end of a path. */
  lemma LinkSlot(m: Memory, m': Memory, t0: Trie, root: nat, i: nat, path: Path, right: bool, x: nat, s: nat, t: nat,
                 lo: nat, h: nat)
    requires Rep(m, t0, root, InBin(i), i) && WF(t0, lo, h) && OnPath(t0, path + [right])
    requires UpAt(m, t0, root, InBin(i), path + [right]) == InNode(t) && Sub(t0, path + [right]).Nil?
    requires x != 0 && x in m && t in m && t != x && !Holds(t0, x) && m[x] == TreeChunk(s, x, x, 0, 0, NoParent, i)
    requires m' == m[t := if right then m[t].(child1 := x) else m[t].(child0 := x)][x := m[x].(parent := InNode(t))]
    ensures Rep(m', Graft(t0, path + [right], Node(s, [x], Nil, Nil)), root, InBin(i), i)
  {
    hide WF, Graft;
    var u := Node(s, [x], Nil, Nil);
    assert Member(m', [x], 0, s, InNode(t), i);
    assert Rep(m', u, x, InNode(t), i);
    RepGraft(m, m', t0, root, InBin(i), i, path + [right], u, x, lo, h);
  }

  lemma RingIn(m: Memory, ring: seq<nat>, size: nat, up: Parent, i: nat)
    requires Ring(m, ring, size, up, i)
    ensures forall a: nat :: a in ring ==> a in m && a != 0
  {
    forall a: nat | a in ring
      ensures a in m && a != 0
    {
      var j: nat :| j < |ring| && ring[j] == a;
      assert Member(m, ring, j, size, up, i);
    }
  }

  /** Insertion under a root of another size is insertion into the child on the search path. */
  lemma InsertBelow(t: Trie, x: nat, s: nat, lo: nat, h: nat, right: bool, clo: nat)
    requires t.Node? && WF(t, lo, h) && lo <= s < lo + Pow2(h) && s != t.size && h > 0 && right == !GoesLeft(s, lo, h)
    requires WF(t.left, lo, h - 1) && WF(t.right, lo + Pow2(h - 1), h - 1) && Pow2(h) == 2 * Pow2(h - 1)
    requires clo == if right then lo + Pow2(h - 1) else lo
    ensures var u := Insert(if right then t.right else t.left, x, s, clo, h - 1);
      Insert(t, x, s, lo, h) == if right then t.(right := u) else t.(left := u)
  {
    hide WF, Pow2;
  }

  /** A size that differs from the root's has bits left to inspect, and the children are tries. */
  lemma MoreBits(t: Trie, s: nat, lo: nat, h: nat)
    requires t.Node? && WF(t, lo, h) && lo <= s < lo + Pow2(h) && s != t.size
    ensures h > 0 && WF(t.left, lo, h - 1) && WF(t.right, lo + Pow2(h - 1), h - 1)
  {
    assert h == 0 ==> Pow2(h) == 1;
  }

  /** Bins other than i are untouched when memory changes only at chunks of bin i and at x. */
  lemma OtherBins(m: Memory, m': Memory, tries: seq<Trie>, bins: seq<nat>, treemap: set<nat>, i: nat,
                  t: Trie, root: nat, treemap': set<nat>, x: nat)
    requires BinsOk(m, tries, bins, treemap) && i < NTREEBINS
    requires forall a: nat :: a in m && !Holds(tries[i], a) && a != x ==> a in m' && m'[a] == m[a]
    requires forall j: nat | j < NTREEBINS && j != i :: !Holds(tries[j], x)
    requires forall a :: Holds(t, a) ==> Holds(tries[i], a) || a == x
    requires forall j :: j != i ==> (j in treemap' <==> j in treemap)
    requires BinOk(m', t, root, i in treemap', i)
    ensures BinsOk(m', tries[i := t], bins[i := root], treemap')
  {
    var tries', bins' := tries[i := t], bins[i := root];
    forall j: nat | j < NTREEBINS
      ensures BinOk(m', tries'[j], bins'[j], j in treemap', j)
    {
      if j != i {
        assert BinOk(m, tries[j], bins[j], j in treemap, j);
        assert Apart(tries[if i < j then i else j], tries[if i < j then j else i]);
        RepFrame(m, m', tries[j], bins[j], InBin(j), j);
      }
    }
    forall j: nat, k: nat | j < k < NTREEBINS
      ensures Apart(tries'[j], tries'[k])
    {
      assert Apart(tries[j], tries[k]);
    }
  }

  lemma FirstInBin(m: Memory, x: nat, s: nat, i: nat)
    requires i < NTREEBINS && x != 0 && x in m && m[x] == TreeChunk(s, x, x, 0, 0, InBin(i), i)
    requires SpanLow(i) <= s < SpanLow(i) + Pow2(SpanBits(i))
    ensures Rep(m, Insert(Nil, x, s, SpanLow(i), SpanBits(i)), x, InBin(i), i)
    ensures Insert(Nil, x, s, SpanLow(i), SpanBits(i)).Node?
  {
    hide Pow2, SpanLow;
    assert Member(m, [x], 0, s, InBin(i), i);
  }

  /** A chunk stored under no size is in no trie. */
  lemma NotHeld(m: Memory, tries: seq<Trie>, bins: seq<nat>, treemap: set<nat>, x: int)
    requires BinsOk(m, tries, bins, treemap) && forall z :: !StoredIn(tries, x, z)
    ensures forall i: nat | i < NTREEBINS :: !Holds(tries[i], x)
  {
    hide BinOk, StoredIn;
    forall i: nat | i < NTREEBINS
      ensures !Holds(tries[i], x)
    {
      if Holds(tries[i], x) { HeldStored(m, tries, bins, treemap, x, i); }
    }
  }

  lemma HeldStored(m: Memory, tries: seq<Trie>, bins: seq<nat>, treemap: set<nat>, x: int, i: nat)
    requires BinsOk(m, tries, bins, treemap) && i < NTREEBINS && Holds(tries[i], x)
    ensures exists z :: StoredIn(tries, x, z)
  {
    hide TreeIndex, WF, Rep;
    HoldsHas(tries[i], x);
    var z: nat :| Has(tries[i], x, z);
    assert BinOk(m, tries[i], bins[i], i in treemap, i);
    assert StoredIn(tries, x, z);
  }

  lemma HeldIn(m: Memory, tries: seq<Trie>, bins: seq<nat>, treemap: set<nat>, x: int) returns (i: nat)
    requires BinsOk(m, tries, bins, treemap) && exists z :: StoredIn(tries, x, z)
    ensures i < NTREEBINS && Holds(tries[i], x) && tries[i].Node?
  {
    var z :| StoredIn(tries, x, z);
    i := TreeIndex(z);
    HasHolds(tries[i]);
  }

  lemma OneMore(tries: seq<Trie>, i: nat, t: Trie, x: nat, s: nat)
    requires |tries| == NTREEBINS && MIN_LARGE_SIZE <= s < WORD && i == TreeIndex(s)
    requires forall a, z :: Has(t, a, z) <==> Has(tries[i], a, z) || (a == x && z == s)
    ensures forall a, z :: StoredIn(tries[i := t], a, z) <==> StoredIn(tries, a, z) || (a == x && z == s)
  {
    hide TreeIndex;
    forall a, z
      ensures StoredIn(tries[i := t], a, z) <==> StoredIn(tries, a, z) || (a == x && z == s)
    {
      if MIN_LARGE_SIZE <= z < WORD {
        assert tries[i := t][TreeIndex(z)] == if TreeIndex(z) == i then t else tries[TreeIndex(z)];
      }
    }
  }

  lemma OneLess(tries: seq<Trie>, i: nat, t: Trie, x: nat)
    requires |tries| == NTREEBINS && i < NTREEBINS
    requires forall j: nat, k: nat | j < k < NTREEBINS :: Apart(tries[j], tries[k])
    requires Holds(tries[i], x)
    requires forall a, z :: Has(t, a, z) <==> Has(tries[i], a, z) && a != x
    ensures forall a, z :: StoredIn(tries[i := t], a, z) <==> StoredIn(tries, a, z) && a != x
  {
    hide TreeIndex;
    forall j: nat | j < NTREEBINS && j != i
      ensures !Holds(tries[j], x) && forall z :: !Has(tries[j], x, z)
    {
      assert Apart(tries[if i < j then i else j], tries[if i < j then j else i]);
      HasHolds(tries[j]);
    }
    forall a, z
      ensures StoredIn(tries[i := t], a, z) <==> StoredIn(tries, a, z) && a != x
    {
      if MIN_LARGE_SIZE <= z < WORD {
        assert tries[i := t][TreeIndex(z)] == if TreeIndex(z) == i then t else tries[TreeIndex(z)];
      }
    }
  }

  /** A ring extended by x still heads the same subtrees. */
  lemma ChainedRep(m: Memory, m': Memory, t: Trie, p: nat, up: Parent, i: nat, x: nat, lo: nat, h: nat)
    requires t.Node? && Rep(m, t, p, up, i) && WF(t, lo, h) && !Holds(t, x) && x in m && x != 0
    requires lo <= t.size < lo + Pow2(h)
    requires m[p].fd in m && m[x] == TreeChunk(t.size, x, x, 0, 0, NoParent, i)
    requires var f := m[p].fd;
      var m1 := m[p := m[p].(fd := x)];
      var m2 := m1[f := m1[f].(bk := x)];
      m' == m2[x := m2[x].(fd := f, bk := p, parent := NoParent)]
    ensures Rep(m', Insert(t, x, t.size, lo, h), p, up, i)
  {
    assert p in t.ring;
    assert m[p].fd in t.ring;
    RingIn(m, t.ring, t.size, up, i);
    RingInsert(m, m', t.ring, x, t.size, up, i);
    RepFrame(m, m', t.left, m[p].child0, InNode(p), i);
    RepFrame(m, m', t.right, m[p].child1, InNode(p), i);
    assert Insert(t, x, t.size, lo, h).ring[0] == p;
    assert Member(m', [t.ring[0], x] + t.ring[1..], 0, t.size, up, i);
  }
}
