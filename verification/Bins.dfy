/** All bins of the allocator: small bins as rings, large chunks in tree bins. */
module Bins {
  import Words
  import TB = TreeBins
  import opened SmallRings
  import opened TreeSizes
  import opened Tries

  const NSMALLBINS: nat := 32

  predicate IsSmall(s: nat) {
    s / 8 < NSMALLBINS
  }

  /** p is a smallest of the free chunks that hold nb bytes. */
  ghost predicate BestFit(free: map<nat, nat>, p: nat, nb: nat) {
    p in free && nb <= free[p] && forall a | a in free :: free[a] < nb || free[p] <= free[a]
  }

  /** The small bins hold exactly the small free chunks, each in the bin of its size, and marked bins are the non-empty ones. */
  ghost predicate SmallLists(small: seq<seq<nat>>, smallmap: set<nat>, free: map<nat, nat>) {
    && |small| == NSMALLBINS
    && (forall i :: i in smallmap <==> 0 <= i < NSMALLBINS && small[i] != [])
    && (forall i: nat | i < NSMALLBINS :: NoDup(small[i]))
    && (forall i: nat, a: nat | i < NSMALLBINS && a in small[i] :: a in free && free[a] == 8 * i)
    && (forall a | a in free && IsSmall(free[a]) :: free[a] % 8 == 0 && a in small[free[a] / 8])
  }

  lemma SmallInserted(small: seq<seq<nat>>, smallmap: set<nat>, free: map<nat, nat>, p: nat, i: nat)
    requires SmallLists(small, smallmap, free) && p !in free && i < NSMALLBINS
    ensures |small| == NSMALLBINS && SmallLists(small[i := [p] + small[i]], smallmap + {i}, free[p := 8 * i])
  {
    var small', free' := small[i := [p] + small[i]], free[p := 8 * i];
    assert p !in small[i];
    forall a | a in free' && IsSmall(free'[a]) ensures free'[a] % 8 == 0 && a in small'[free'[a] / 8] {
      assert a != p ==> a in small[free[a] / 8];
    }
  }

  lemma SmallRemoved(small: seq<seq<nat>>, smallmap: set<nat>, free: map<nat, nat>, p: nat, i: nat)
    requires SmallLists(small, smallmap, free) && i < NSMALLBINS && p in small[i]
    ensures var w := Without(small[i], p);
      SmallLists(small[i := w], if w == [] then smallmap - {i} else smallmap, free - {p})
  {
    WithoutCorrect(small[i], p);
    var small', free' := small[i := Without(small[i], p)], free - {p};
    forall a | a in free' && IsSmall(free'[a]) ensures free'[a] % 8 == 0 && a in small'[free'[a] / 8] {
      assert a in small[free[a] / 8];
    }
    forall j: nat, a: nat | j < NSMALLBINS && a in small'[j] ensures a in free' && free'[a] == 8 * j {
      assert j == i ==> a in small[i] && a != p;
      assert a in small[j] && free[p] == 8 * i;
    }
  }

  /** Every marked small bin is a ring; the header of any other holds old links. */
  ghost predicate Rings(fd: Links, bk: Links, small: seq<seq<nat>>) {
    forall i: nat | i < |small| && small[i] != [] :: Ring(fd, bk, Header(i), small[i])
  }

  /** The nodes of ring j are not those of ring i. */
  lemma OtherNode(small: seq<seq<nat>>, smallmap: set<nat>, free: map<nat, nat>, i: nat, j: nat, a: int)
    requires SmallLists(small, smallmap, free) && i < NSMALLBINS && j < NSMALLBINS && i != j && (a == Header(j) || a in small[j])
    ensures a != Header(i) && a !in small[i] && (a >= 0 ==> a in free)
  {
    if a >= 0 {
      var n: nat := a;
      assert n in small[j] && n in free && free[n] == 8 * j;
    }
  }

  lemma RingsInserted(fd: Links, bk: Links, small: seq<seq<nat>>, smallmap: set<nat>, free: map<nat, nat>, p: nat, i: nat)
    requires SmallLists(small, smallmap, free) && Rings(fd, bk, small) && p !in free && i < NSMALLBINS
    ensures i in smallmap ==> Header(i) in fd
    ensures var f := if i in smallmap then fd[Header(i)] else Header(i);
      Rings(fd[Header(i) := p][p := f], bk[f := p][p := Header(i)], small[i := [p] + small[i]])
  {
    hide Ring;
    var h := Header(i);
    if i in smallmap { RingFirst(fd, bk, h, small[i]); }
    var f := if i in smallmap then fd[h] else h;
    assert p !in small[i];
    RingInserted(fd, bk, h, small[i], p, f);
    var fd', bk', small' := fd[h := p][p := f], bk[f := p][p := h], small[i := [p] + small[i]];
    forall j: nat | j < |small'| && small'[j] != [] ensures Ring(fd', bk', Header(j), small'[j]) {
      if j != i {
        assert f != h ==> f == small[i][0] && small[i][0] in small[i];
        forall a: int | a == Header(j) || a in small[j] ensures a != h && a != f && a != p {
          OtherNode(small, smallmap, free, i, j, a);
        }
        RingKept(fd, bk, fd', bk', Header(j), small[j]);
      }
    }
  }

  /** The links of a chunk in small bin i, and its ring without it. */
  lemma RingsRemoved(fd: Links, bk: Links, small: seq<seq<nat>>, smallmap: set<nat>, free: map<nat, nat>, p: nat, i: nat)
    requires SmallLists(small, smallmap, free) && Rings(fd, bk, small) && i < NSMALLBINS && p in small[i]
    ensures p in fd && p in bk && fd[p] != p && bk[p] != p && (bk[p] == fd[p] <==> Without(small[i], p) == [])
    ensures Linked(fd, bk, p, fd[p]) && Linked(fd, bk, bk[p], p)
    ensures bk[p] == fd[p] ==> Rings(fd, bk, small[i := Without(small[i], p)])
    ensures bk[p] != fd[p] ==> Rings(fd[bk[p] := fd[p]], bk[fd[p] := bk[p]], small[i := Without(small[i], p)])
  {
    var c, h := small[i], Header(i);
    var k: nat :| k < |c| && c[k] == p;
    RingAround(fd, bk, h, c, k);
    WithoutAt(c, k);
    var b, f := bk[p], fd[p];
    if b != f {
      RingRemoved(fd, bk, h, c, k);
      var fd', bk', small' := fd[b := f], bk[f := b], small[i := Without(c, p)];
      assert (b == h || b in c) && (f == h || f in c);
      hide Ring, At;
      forall j: nat | j < |small'| && small'[j] != [] ensures Ring(fd', bk', Header(j), small'[j]) {
        if j != i {
          forall a: int | a == Header(j) || a in small[j] ensures a != b && a != f {
            OtherNode(small, smallmap, free, i, j, a);
          }
          RingKept(fd, bk, fd', bk', Header(j), small[j]);
        }
      }
    }
  }

  /** The tree bins hold exactly the large free chunks. */
  ghost predicate LargeAre(trees: TB.TreeBins, free: map<nat, nat>)
    reads trees
  {
    trees.Valid() && forall a, z :: trees.Stored(a, z) <==> a >= 0 && a in free && free[a] == z && !IsSmall(free[a])
  }

  lemma LargeInserted(trees: TB.TreeBins, free: map<nat, nat>, p: nat, s: nat)
    requires LargeAre(trees, free) && p !in free && IsSmall(s)
    ensures LargeAre(trees, free[p := s])
  {
    hide TB.BinsOk, TB.StoredIn;
  }

  lemma LargeRemoved(trees: TB.TreeBins, free: map<nat, nat>, p: nat)
    requires LargeAre(trees, free) && p in free && IsSmall(free[p])
    ensures LargeAre(trees, free - {p})
  {
    hide TB.BinsOk, TB.StoredIn;
  }

  class Bins {
    /** The links of chunks and headers. */
    var fd: Links
    var bk: Links
    var smallmap: set<nat>
    const trees: TB.TreeBins

    /** The chunks of each small bin in the order of their links. */
    ghost var small: seq<seq<nat>>

    /** The binned chunks with their sizes. */
    ghost var free: map<nat, nat>

    ghost predicate SmallOk()
      reads this
    {
      SmallLists(small, smallmap, free) && Rings(fd, bk, small)
    }

    ghost predicate LargeOk()
      reads this, trees
    {
      LargeAre(trees, free)
    }

    ghost predicate Valid()
      reads this, trees
    {
      SmallOk() && LargeOk()
    }

    constructor ()
      ensures Valid() && free == map[] && fresh(trees)
    {
      fd := map i | 0 <= i < NSMALLBINS :: Header(i) := Header(i);
      bk := map i | 0 <= i < NSMALLBINS :: Header(i) := Header(i);
      smallmap := {};
      trees := new TB.TreeBins();
      small := seq(NSMALLBINS, _ => []);
      free := map[];
    }

    method InsertSmallChunk(p: nat, s: nat)
      requires Valid() && p !in free && IsSmall(s) && s % 8 == 0
      modifies this
      ensures Valid() && free == old(free)[p := s]
    {
      hide SmallLists, Rings, LargeAre;
      var i := s / 8;
      LargeInserted(trees, free, p, s);
      var b := Header(i);
      var f := b;
      SmallInserted(small, smallmap, free, p, i);
      RingsInserted(fd, bk, small, smallmap, free, p, i);
      if i !in smallmap {
        smallmap := smallmap + {i};
      } else {
        f := fd[b];
        assert smallmap + {i} == smallmap;
      }
      fd := fd[b := p];
      bk := bk[f := p];
      fd := fd[p := f];
      bk := bk[p := b];
      small := small[i := [p] + small[i]];
      free := free[p := s];
    }

    method UnlinkSmallChunk(p: nat, s: nat)
      requires Valid() && p in free && free[p] == s && IsSmall(s)
      modifies this
      ensures Valid() && free == old(free) - {p}
    {
      hide TB.BinsOk, TB.StoredIn, Rings, LargeAre;
      var i := s / 8;
      LargeRemoved(trees, free, p);
      SmallRemoved(small, smallmap, free, p, i);
      RingsRemoved(fd, bk, small, smallmap, free, p, i);
      hide SmallLists;
      var f, b := fd[p], bk[p];
      if b == f {
        smallmap := smallmap - {i};
      } else {
        bk := bk[f := b];
        fd := fd[b := f];
      }
      small := small[i := Without(small[i], p)];
      free := free - {p};
    }

    /** Take the first chunk of a non-empty small bin. */
    method UnlinkFirstSmallChunk(i: nat) returns (p: nat)
      requires Valid() && i in smallmap
      modifies this
      ensures Valid() && p in old(free) && old(free)[p] == 8 * i && free == old(free) - {p}
    {
      hide TB.BinsOk, TB.StoredIn, LargeAre;
      ghost var first := FirstLinks(i);
      var b := Header(i);
      p := fd[b];
      LargeRemoved(trees, free, p);
      SmallRemoved(small, smallmap, free, p, i);
      RingsRemoved(fd, bk, small, smallmap, free, p, i);
      hide SmallLists, Rings;
      var f := fd[p];
      if b == f {
        smallmap := smallmap - {i};
      } else {
        bk := bk[f := b];
        fd := fd[b := f];
      }
      small := small[i := Without(small[i], p)];
      free := free - {p};
    }

    /** The first chunk of a non-empty small bin. */
    method FirstSmallChunk(i: nat) returns (p: nat)
      requires Valid() && i in smallmap
      ensures p in free && free[p] == 8 * i
    {
      ghost var first := FirstLinks(i);
      p := fd[Header(i)];
    }

    /** The header of a marked bin points to its first chunk, which points back. */
    lemma FirstLinks(i: nat) returns (p: nat)
      requires SmallOk() && i in smallmap
      ensures i < NSMALLBINS && Linked(fd, bk, Header(i), p) && p in small[i] && p in free && free[p] == 8 * i
    {
      p := small[i][0];
      RingFirst(fd, bk, Header(i), small[i]);
    }

    /** The link tests of an unlink never fail: a small chunk is not its own neighbour, and its neighbours point back. */
    lemma LinkTestsPass(p: nat)
      requires Valid() && p in free && IsSmall(free[p])
      ensures p in fd && p in bk && fd[p] != p && bk[p] != p && Linked(fd, bk, p, fd[p]) && Linked(fd, bk, bk[p], p)
    {
      RingsRemoved(fd, bk, small, smallmap, free, p, free[p] / 8);
    }

    /** With no tree bin in use and no small bin from index k up, all binned chunks are smaller than 8k. */
    lemma NothingFrom(k: nat)
      requires Valid() && trees.treemap == {} && forall i | i in smallmap :: i < k
      ensures forall a | a in free :: IsSmall(free[a]) && free[a] < 8 * k
    {
      forall a | a in free
        ensures IsSmall(free[a]) && free[a] < 8 * k
      {
        if IsSmall(free[a]) {
          assert a in small[free[a] / 8];
        } else {
          assert trees.Stored(a, free[a]);
          trees.EmptyMap(a, free[a]);
        }
      }
    }

    /** Small chunks have the size of a marked bin. */
    lemma SmallMarked(a: nat)
      requires Valid() && a in free && IsSmall(free[a])
      ensures free[a] == 8 * (free[a] / 8) && free[a] / 8 in smallmap
    {
      assert a in small[free[a] / 8];
    }

    /** With small bin k unmarked, no chunk has 8k bytes. */
    lemma Unmarked(k: nat)
      requires Valid() && k < NSMALLBINS && k !in smallmap
      ensures forall a | a in free :: free[a] != 8 * k
    {
      forall a | a in free ensures free[a] != 8 * k {
        if IsSmall(free[a]) { SmallMarked(a); }
      }
    }

    /** No chunk of at least 8k bytes is smaller than those of the first non-empty small bin from k up. */
    lemma FirstFrom(k: nat, i: nat)
      requires Valid() && k <= i && i in smallmap && forall j | j in smallmap :: j < k || i <= j
      ensures forall a | a in free :: free[a] < 8 * k || 8 * i <= free[a]
    {
      forall a | a in free ensures free[a] < 8 * k || 8 * i <= free[a] {
        if IsSmall(free[a]) { SmallMarked(a); }
      }
    }

    /** Without small bins from k up, chunks of at least 8k bytes are large. */
    lemma OnlyLargeFrom(k: nat)
      requires Valid() && forall j | j in smallmap :: j < k
      ensures forall a | a in free :: free[a] < 8 * k || !IsSmall(free[a])
    {
      forall a | a in free ensures free[a] < 8 * k || !IsSmall(free[a]) {
        if IsSmall(free[a]) { SmallMarked(a); }
      }
    }

    method InsertChunk(p: nat, s: nat)
      requires Valid() && p !in free && p != 0 && s % 8 == 0 && s < Words.WORD
      modifies this, trees
      ensures Valid() && free == old(free)[p := s]
    {
      hide TB.BinsOk, TB.StoredIn;
      if IsSmall(s) {
        InsertSmallChunk(p, s);
      } else {
        trees.InsertLargeChunk(p, s);
        free := free[p := s];
      }
    }

    method UnlinkChunk(p: nat, s: nat)
      requires Valid() && p in free && free[p] == s
      modifies this, trees
      ensures Valid() && free == old(free) - {p}
    {
      hide TB.BinsOk, TB.StoredIn;
      if IsSmall(s) {
        UnlinkSmallChunk(p, s);
      } else {
        assert trees.Stored(p, s);
        trees.UnlinkLargeChunk(p);
        free := free - {p};
      }
    }

    /** Best fit among the large chunks: the smallest of at least nb bytes, or 0 if there is none. */
    method SmallestFit(nb: nat) returns (v: nat, rsize: nat)
      requires Valid() && !IsSmall(nb) && nb < Words.WORD
      ensures v == 0 ==> rsize == Words.WORD - nb && forall a | a in free :: IsSmall(free[a]) || free[a] < nb
      ensures v != 0 ==> v in free && free[v] == nb + rsize
      ensures v != 0 ==> forall a | a in free :: free[a] < nb || free[v] <= free[a]
    {
      hide TB.BinsOk, TB.StoredIn;
      v, rsize := trees.SmallestFit(nb);
      forall a | a in free && !IsSmall(free[a]) ensures trees.Stored(a, free[a]) {}
    }

    /** The smallest of all large chunks. */
    method SmallestLarge(nb: nat) returns (v: nat, rsize: nat)
      requires Valid() && nb <= MIN_LARGE_SIZE && trees.treemap != {}
      ensures v in free && free[v] == nb + rsize && !IsSmall(free[v])
      ensures forall a | a in free :: IsSmall(free[a]) || free[v] <= free[a]
    {
      hide TB.BinsOk, TB.StoredIn;
      v, rsize := trees.SmallestChunk(nb);
      forall a | a in free && !IsSmall(free[a]) ensures trees.Stored(a, free[a]) {}
    }
  }
}
