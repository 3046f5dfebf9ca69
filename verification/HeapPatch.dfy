/** Re-tiling a stretch of the heap: what every split, merge and change of status has in common. */
module HeapPatch {
  import opened HeapShape

  /** The chunks n tile exactly the bytes from lo to hi. */
  ghost predicate NewTiles(n: Chunks, lo: nat, hi: nat) {
    && lo in n
    && (forall a {:trigger NewTile(n, lo, hi, a)} | a in n :: NewTile(n, lo, hi, a))
    && (forall a, b {:trigger Apart(n, a, b)} | a in n && b in n :: Apart(n, a, b))
  }

  ghost predicate NewTile(n: Chunks, lo: nat, hi: nat, a: nat)
    requires a in n
  {
    && lo <= a && n[a].size > 0 && Aligned(a) && Aligned(n[a].size)
    && End(n, a) <= hi && (End(n, a) in n || End(n, a) == hi)
  }

  ghost function Patched(c: Chunks, lo: nat, hi: nat, n: Chunks): Chunks {
    map a | a in c.Keys + n.Keys && (a in n || !(lo <= a < hi)) :: if a in n then n[a] else c[a]
  }

  /** The stretch from lo to hi consists of whole chunks. */
  ghost predicate Stretch(s: State, lo: nat, hi: nat) {
    && lo in s.chunks && lo < hi && (hi in s.chunks || IsStop(s.segs, hi))
    && NoStop(s.segs, lo, hi)
  }

  /** The tags of a new chunk. */
  ghost predicate NewTag(s: State, n: Chunks, lo: nat, a: nat)
    requires a in n
  {
    var e := End(n, a);
    && a in s.head && s.head[a].size == n[a].size && s.head[a].cinuse == n[a].inuse
    && e in s.head && s.head[e].pinuse == n[a].inuse
    && (!n[a].inuse && a != s.top ==> e in s.foot && s.foot[e] == n[a].size)
    && (a != lo && !s.head[a].pinuse ==> a in s.foot && FreeBefore(n, a, s.foot[a]))
  }

  /** Only tags from lo to hi were written, and those at the two ends as the neighbours need them. */
  ghost predicate Retagged(s: State, s': State, lo: nat, hi: nat, n: Chunks) {
    && (forall a :: a in s.head && (a < lo || a > hi) ==> a in s'.head && s'.head[a] == s.head[a])
    && (forall a :: a in s.foot && (a <= lo || a > hi) ==> a in s'.foot && s'.foot[a] == s.foot[a])
    && lo in s.head && lo in s'.head && s'.head[lo].pinuse == s.head[lo].pinuse
    && (hi in s.chunks ==> hi in s.head && hi in s'.head && SameButPinuse(s.head[hi], s'.head[hi]))
    && (forall a {:trigger NewTag(s', n, lo, a)} | a in n :: NewTag(s', n, lo, a))
  }

  ghost predicate SameButPinuse(h: Head, h': Head) {
    h'.size == h.size && h'.cinuse == h.cinuse
  }

  /** State s' is s with the stretch from lo to hi re-tiled by n. */
  ghost predicate Patch(s: State, s': State, lo: nat, hi: nat, n: Chunks) {
    && Stretch(s, lo, hi) && NewTiles(n, lo, hi)
    && s'.chunks == Patched(s.chunks, lo, hi, n) && Retagged(s, s', lo, hi, n)
    && s'.segs == s.segs && s'.direct == s.direct && s'.records == s.records && s'.live == s.live
    && (s'.top == s.top || (lo <= s.top < hi && lo <= s'.top < hi))
    && (s'.dv == s.dv || ((s.dv == 0 || lo <= s.dv < hi) && (s'.dv == 0 || lo <= s'.dv < hi)))
  }

  /** Where chunk a of the old heap lies relative to the stretch. */
  lemma Outside(s: State, lo: nat, hi: nat, a: nat)
    requires Layout(s.chunks, s.segs) && Stretch(s, lo, hi) && a in s.chunks
    ensures if a < lo then End(s.chunks, a) <= lo else if a < hi then End(s.chunks, a) <= hi else true
  {
    assert Apart(s.chunks, a, lo);
    assert Placed(s.chunks, s.segs, a);
    if hi in s.chunks {
      assert Apart(s.chunks, a, hi);
    } else {
      var k: nat :| k < |s.segs| && s.segs[k].stop == hi;
    }
  }

  lemma PatchLayout(s: State, s': State, lo: nat, hi: nat, n: Chunks)
    requires Layout(s.chunks, s.segs) && Patch(s, s', lo, hi, n)
    ensures Layout(s'.chunks, s'.segs)
  {
    var c, c' := s.chunks, s'.chunks;
    forall a | a in c'
      ensures Placed(c', s'.segs, a)
    {
      if a in n {
        NewPlaced(s, s', lo, hi, n, a);
      } else {
        assert Placed(c, s.segs, a);
        Outside(s, lo, hi, a);
      }
    }
    forall a, b | a in c' && b in c'
      ensures Apart(c', a, b)
    {
      if a !in n && b !in n {
        assert Apart(c, a, b);
      } else if a in n && b in n {
        assert Apart(n, a, b);
      } else if a !in n {
        Outside(s, lo, hi, a);
        assert NewTile(n, lo, hi, b);
      } else {
        assert NewTile(n, lo, hi, a);
      }
    }
  }

  lemma NewPlaced(s: State, s': State, lo: nat, hi: nat, n: Chunks, a: nat)
    requires Layout(s.chunks, s.segs) && Patch(s, s', lo, hi, n) && a in n
    ensures a in s'.chunks && Placed(s'.chunks, s'.segs, a)
  {
    assert NewTile(n, lo, hi, a);
    assert NewTile(n, lo, hi, lo);
    assert Placed(s.chunks, s.segs, lo);
    var k: nat :| k < |s.segs| && s.segs[k].base <= lo < s.segs[k].stop;
    assert s.segs[k].base <= a < s.segs[k].stop;
  }

  lemma PatchTagged(s: State, s': State, lo: nat, hi: nat, n: Chunks)
    requires Layout(s.chunks, s.segs) && Tagged(s) && Patch(s, s', lo, hi, n)
    requires hi in s.chunks ==> s'.top !in n
    ensures Tagged(s')
  {
    forall a | a in s'.chunks
      ensures TagOk(s', a)
    {
      if a in n {
        NewTagOk(s, s', lo, hi, n, a);
      } else {
        OldTagOk(s, s', lo, hi, n, a);
      }
    }
  }

  lemma NewTagOk(s: State, s': State, lo: nat, hi: nat, n: Chunks, a: nat)
    requires Layout(s.chunks, s.segs) && Tagged(s) && Patch(s, s', lo, hi, n) && a in n
    ensures a in s'.chunks && TagOk(s', a)
  {
    assert NewTag(s', n, lo, a) && NewTile(n, lo, hi, a);
    if a == lo {
      assert TagOk(s, lo);
      if !s.head[lo].pinuse {
        assert Placed(s.chunks, s.segs, lo - s.foot[lo]);
        NoKey(n, lo, hi, lo - s.foot[lo]);
      }
    } else if !s'.head[a].pinuse {
      assert NewTile(n, lo, hi, a - s'.foot[a]);
    }
  }

  lemma OldTagOk(s: State, s': State, lo: nat, hi: nat, n: Chunks, a: nat)
    requires Layout(s.chunks, s.segs) && Tagged(s) && Patch(s, s', lo, hi, n) && a !in n && a in s'.chunks
    requires hi in s.chunks ==> s'.top !in n
    ensures TagOk(s', a)
  {
    var c := s.chunks;
    assert TagOk(s, a) && Placed(c, s.segs, a);
    Outside(s, lo, hi, a);
    if a == hi {
      var last := LastTile(n, lo, hi);
      assert NewTag(s', n, lo, last);
    } else if !s.head[a].pinuse {
      var b: nat := a - s.foot[a];
      assert Placed(c, s.segs, b);
      Outside(s, lo, hi, b);
      NoKey(n, lo, hi, b);
    }
  }

  lemma NoKey(n: Chunks, lo: nat, hi: nat, b: nat)
    requires NewTiles(n, lo, hi) && !(lo <= b < hi)
    ensures b !in n
  {
    assert b in n ==> NewTile(n, lo, hi, b);
  }

  lemma {:induction false} LastTile(n: Chunks, lo: nat, hi: nat) returns (a: nat)
    requires NewTiles(n, lo, hi)
    ensures a in n && End(n, a) == hi
  {
    a := lo;
    assert NewTile(n, lo, hi, a);
    while End(n, a) != hi
      invariant a in n && NewTile(n, lo, hi, a)
      decreases hi - a
    {
      a := End(n, a);
      assert NewTile(n, lo, hi, a);
    }
  }

  /** A stretch lies below the stop of the segment it starts in, clear of everything else. */
  lemma StretchInSegment(s: State, lo: nat, hi: nat) returns (k: nat)
    requires Layout(s.chunks, s.segs) && Segments(s) && Stretch(s, lo, hi)
    ensures k < |s.segs| && s.segs[k].base <= lo && hi <= s.segs[k].stop
    ensures forall j: nat | j < |s.segs| && j != k :: s.segs[j].base < lo || s.segs[j].base > hi
    ensures forall p | p in s.direct :: p < lo || p > hi
  {
    assert Placed(s.chunks, s.segs, lo);
    k :| k < |s.segs| && s.segs[k].base <= lo < s.segs[k].stop;
    assert SegOk(s, k);
    forall j: nat | j < |s.segs| && j != k
      ensures s.segs[j].base < lo || s.segs[j].base > hi
    {
      assert SegOk(s, j);
      if j < k {
        assert SegsApart(s.segs[j], s.segs[k]);
      } else {
        assert SegsApart(s.segs[k], s.segs[j]);
      }
    }
    forall p | p in s.direct
      ensures p < lo || p > hi
    {
      assert DirectOk(s, p);
      assert DirectApart(s, k, p);
    }
  }

  lemma PatchSegments(s: State, s': State, lo: nat, hi: nat, n: Chunks)
    requires Layout(s.chunks, s.segs) && Segments(s) && Patch(s, s', lo, hi, n)
    ensures Segments(s')
  {
    var k := StretchInSegment(s, lo, hi);
    forall j: nat | j < |s.segs|
      ensures SegOk(s', j)
    {
      assert SegOk(s, j);
      NoKey(n, lo, hi, s.segs[j].stop);
    }
    forall p | p in s.direct
      ensures DirectOk(s', p)
    {
      assert DirectOk(s, p);
    }
    forall j: nat, p | j < |s.segs| && p in s.direct
      ensures DirectApart(s', j, p)
    {
      assert DirectApart(s, j, p);
    }
    forall p, q | p in s.direct && q in s.direct && p != q
      ensures DirectsApart(s', p, q)
    {
      assert DirectsApart(s, p, q);
    }
  }

  /** A new free chunk has no free neighbour, inside the stretch or at its ends. */
  ghost predicate NewCalm(s: State, lo: nat, hi: nat, n: Chunks) {
    && (forall a {:trigger NewCalmAt(s, n, hi, a)} | a in n :: NewCalmAt(s, n, hi, a))
    && (lo in n && lo in s.head && (n[lo].inuse || s.head[lo].pinuse))
  }

  ghost predicate NewCalmAt(s: State, n: Chunks, hi: nat, a: nat)
    requires a in n
  {
    || n[a].inuse
    || ((End(n, a) in n ==> n[End(n, a)].inuse) && (End(n, a) == hi && hi in s.chunks ==> s.chunks[hi].inuse))
  }

  lemma PatchCalm(s: State, s': State, lo: nat, hi: nat, n: Chunks)
    requires Layout(s.chunks, s.segs) && Calm(s.chunks) && Tagged(s) && Patch(s, s', lo, hi, n) && NewCalm(s, lo, hi, n)
    ensures Calm(s'.chunks)
  {
    var c, c' := s.chunks, s'.chunks;
    forall a | a in c'
      ensures CalmAt(c', a)
    {
      if a in n {
        assert NewCalmAt(s, n, hi, a) && NewTile(n, lo, hi, a);
        NoKey(n, lo, hi, hi);
      } else {
        assert CalmAt(c, a) && TagOk(s, a);
        Outside(s, lo, hi, a);
        if End(c, a) != lo { NoKey(n, lo, hi, End(c, a)); }
      }
    }
  }

  /** The bins follow the new chunks. */
  ghost predicate NewBins(s: State, s': State, lo: nat, hi: nat, n: Chunks) {
    && (forall a: nat {:trigger a in s'.free} :: !(lo <= a < hi) ==>
         (a in s'.free <==> a in s.free) && (a in s.free ==> s'.free[a] == s.free[a]))
    && (forall a: nat {:trigger a in s'.free} :: lo <= a < hi ==>
         (a in s'.free <==> a in n && !n[a].inuse && a != s'.dv && a != s'.top) && (a in s'.free ==> s'.free[a] == n[a].size))
  }

  lemma PatchBinned(s: State, s': State, lo: nat, hi: nat, n: Chunks)
    requires Binned(s) && Patch(s, s', lo, hi, n) && NewBins(s, s', lo, hi, n)
    requires s.dv != 0 ==> s.dv in s.chunks
    requires 0 !in s.chunks
    ensures Binned(s')
  {
    hide NewTag, Retagged, Stretch;
    forall a: nat
      ensures a in s'.free <==> Binnable(s', a)
      ensures a in s'.free ==> s'.free[a] == s'.chunks[a].size
    {
      if !(lo <= a < hi) {
        assert a in s.free <==> Binnable(s, a);
        NoKey(n, lo, hi, a);
      }
    }
  }

  /** No payload or record in the stretch; the orphans there are replaced by the new chunks in use. */
  ghost predicate NewOwners(s: State, lo: nat, hi: nat, n: Chunks, orphans: set<nat>, orphans': set<nat>) {
    && (forall a | a in s.chunks :: lo <= a < hi ==> a !in s.records && a + CHUNK_OVERHEAD !in s.live)
    && (forall a :: a in orphans' <==> if lo <= a < hi then a in n && n[a].inuse else a in orphans)
    && (forall a | a in n :: n[a].inuse ==> a + CHUNK_OVERHEAD !in s.live)
  }

  lemma PatchOwned(s: State, s': State, lo: nat, hi: nat, n: Chunks, orphans: set<nat>, orphans': set<nat>)
    requires Owned(s, orphans) && Patch(s, s', lo, hi, n) && NewOwners(s, lo, hi, n, orphans, orphans')
    ensures Owned(s', orphans')
  {
    hide NewTag, Retagged, Stretch;
    forall m | m in s'.live
      ensures PayloadOk(s', m)
    {
      assert PayloadOk(s, m);
      if m - CHUNK_OVERHEAD in s.chunks { NoKeyOr(n, lo, hi, m - CHUNK_OVERHEAD); }
    }
    forall a | a in s'.chunks && s'.chunks[a].inuse
      ensures OwnerOk(s', a, orphans')
    {
      if a in n { assert NewTile(n, lo, hi, a); } else { assert OwnerOk(s, a, orphans); }
    }
    forall a | a in s'.records
      ensures a in s'.chunks && s'.chunks[a].inuse && a !in orphans'
    {
      NoKeyOr(n, lo, hi, a);
    }
    forall a | a in orphans'
      ensures a in s'.chunks && s'.chunks[a].inuse && a + CHUNK_OVERHEAD !in s'.live
    {
      NoKeyOr(n, lo, hi, a);
    }
  }

  lemma NoKeyOr(n: Chunks, lo: nat, hi: nat, b: nat)
    requires NewTiles(n, lo, hi)
    ensures b in n ==> lo <= b < hi
  {
    assert b in n ==> NewTile(n, lo, hi, b);
  }

  /** What must hold of top, the designated victim and chunk sizes after re-tiling. */
  ghost predicate NewTops(s: State, s': State, lo: nat, hi: nat, n: Chunks) {
    && (s'.dv == 0 <==> s'.dvsize == 0)
    && (s'.dv == s.dv && !(lo <= s.dv < hi) ==> s'.dvsize == s.dvsize)
    && (lo <= s'.dv < hi ==> s'.dv in n && n[s'.dv] == Chunk(s'.dvsize, false) && s'.dv != s'.top)
    && (!(lo <= s.top < hi) ==> s'.topsize == s.topsize)
    && (lo <= s.top < hi ==> s'.top in n && n[s'.top] == Chunk(s'.topsize, false) && End(n, s'.top) == hi)
    && (forall a | a in n :: a == s'.top || n[a].size >= MIN_CHUNK_SIZE)
    && (hi !in s.chunks ==> lo <= s.top < hi)
  }

  lemma PatchTops(s: State, s': State, lo: nat, hi: nat, n: Chunks)
    requires Layout(s.chunks, s.segs) && Segments(s) && TopAndVictim(s) && Patch(s, s', lo, hi, n) && NewTops(s, s', lo, hi, n)
    ensures TopAndVictim(s')
  {
    hide NewTag, Retagged, Apart;
    var c, c' := s.chunks, s'.chunks;
    assert lo > 0 by { assert Placed(c, s.segs, lo); }
    if lo <= s.top < hi { TopEndsStretch(s, lo, hi); }
    NoKeyOr(n, lo, hi, s.top);
    NoKeyOr(n, lo, hi, s.dv);
    assert s'.dv != 0 ==> s'.dv in c';
    forall a | a in c'
      ensures RoleOk(s', a)
    {
      if a in n {
        NewRole(s, s', lo, hi, n, a);
      } else {
        assert RoleOk(s, a);
        Outside(s, lo, hi, a);
      }
    }
  }

  lemma NewRole(s: State, s': State, lo: nat, hi: nat, n: Chunks, a: nat)
    requires Patch(s, s', lo, hi, n) && NewTops(s, s', lo, hi, n) && a in n
    ensures a in s'.chunks && RoleOk(s', a)
  {
    hide NewTag, Retagged;
    assert NewTile(n, lo, hi, a);
    if End(n, a) == hi && hi !in s.chunks {
      assert NewTile(n, lo, hi, s'.top);
      assert Apart(n, a, s'.top) && Apart(n, s'.top, a);
    }
  }

  lemma TopEndsStretch(s: State, lo: nat, hi: nat)
    requires Layout(s.chunks, s.segs) && Segments(s) && TopAndVictim(s) && Stretch(s, lo, hi) && lo <= s.top < hi
    ensures s.segs != [] && hi == s.top + s.topsize && hi !in s.chunks
  {
    assert Placed(s.chunks, s.segs, lo);
    assert SegOk(s, 0);
    assert Placed(s.chunks, s.segs, s.top);
    Outside(s, lo, hi, s.top);
    assert s.segs[0].stop == s.top + s.topsize;
  }

  /** Re-tiling a stretch keeps the invariant. */
  lemma PatchInv(s: State, s': State, lo: nat, hi: nat, n: Chunks, orphans: set<nat>, orphans': set<nat>)
    requires Inv(s, orphans) && Patch(s, s', lo, hi, n)
    requires NewCalm(s, lo, hi, n) && NewBins(s, s', lo, hi, n)
    requires NewOwners(s, lo, hi, n, orphans, orphans') && NewTops(s, s', lo, hi, n)
    ensures Inv(s', orphans')
  {
    hide Layout, Calm, Tagged, Segments, Binned, Owned, Stretch, NewTiles, Retagged, NewCalm, NewBins, NewOwners;
    assert hi in s.chunks ==> s'.top !in n by {
      if s'.top in n {
        NoKeyOr(n, lo, hi, s'.top);
        TopEndsStretch(s, lo, hi);
      }
    }
    assert 0 !in s.chunks by { NullFree(s); }
    hide NewTops, TopAndVictim;
    PatchLayout(s, s', lo, hi, n);
    PatchTagged(s, s', lo, hi, n);
    PatchSegments(s, s', lo, hi, n);
    PatchCalm(s, s', lo, hi, n);
    PatchOwned(s, s', lo, hi, n, orphans, orphans');
    PatchTops(s, s', lo, hi, n);
    assert s.dv != 0 ==> s.dv in s.chunks by { VictimIn(s); }
    PatchBinned(s, s', lo, hi, n);
  }

  lemma NullFree(s: State)
    requires Layout(s.chunks, s.segs)
    ensures 0 !in s.chunks
  {
    assert 0 in s.chunks ==> Placed(s.chunks, s.segs, 0);
  }

  lemma VictimIn(s: State)
    requires TopAndVictim(s)
    ensures s.dv != 0 ==> s.dv in s.chunks
  {
  }
}
