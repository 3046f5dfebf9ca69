/** What the invariant says about a chunk and its neighbours. */
module HeapFacts {
  import opened Words
  import opened HeapShape
  import opened HeapPatch
  import opened HeapSteps

  /** Chunk a is free: the chunk before it is in use, and so is the one after it unless a is top. */
  ghost predicate FreeFacts(s: State, a: nat) {
    && a in s.chunks && !s.chunks[a].inuse && a in s.head && s.head[a] == Head(s.chunks[a].size, false, true)
    && a > 0 && a !in s.records && a + CHUNK_OVERHEAD !in s.live
    && 0 < s.chunks[a].size && Aligned(s.chunks[a].size) && Aligned(a)
    && End(s.chunks, a) < WORD && End(s.chunks, a) in s.head && !s.head[End(s.chunks, a)].pinuse
    && (a != s.top ==> End(s.chunks, a) in s.chunks && s.chunks[End(s.chunks, a)].inuse && s.chunks[a].size >= MIN_CHUNK_SIZE)
    && (a == s.top ==> IsStop(s.segs, End(s.chunks, a)) && End(s.chunks, a) !in s.chunks && s.chunks[a].size == s.topsize)
    && (a == s.dv ==> s.chunks[a].size == s.dvsize)
    && (a in s.free <==> a != s.top && a != s.dv) && (a in s.free ==> s.free[a] == s.chunks[a].size)
  }

  /** A segment contains no direct mapping. */
  lemma NotDirect(s: State, k: nat, r: nat)
    requires Segments(s) && k < |s.segs| && s.segs[k].base <= r < s.segs[k].base + s.segs[k].size
    ensures r !in s.direct
  {
    assert r in s.direct ==> DirectOk(s, r);
    assert r in s.direct ==> DirectApart(s, k, r);
  }

  lemma ChunkNotDirect(s: State, a: nat)
    requires Layout(s.chunks, s.segs) && Segments(s) && a in s.chunks
    ensures a !in s.direct && End(s.chunks, a) < WORD
  {
    assert Placed(s.chunks, s.segs, a);
    var k: nat :| k < |s.segs| && s.segs[k].base <= a < s.segs[k].stop;
    assert SegOk(s, k);
    NotDirect(s, k, a);
  }

  lemma FreeNotLive(s: State, a: nat, orphans: set<nat>)
    requires Owned(s, orphans) && a in s.chunks && !s.chunks[a].inuse && a !in s.direct
    ensures a + CHUNK_OVERHEAD !in s.live
  {
    var m := a + CHUNK_OVERHEAD;
    assert m in s.live ==> PayloadOk(s, m);
  }

  lemma FreeChunk(s: State, a: nat, orphans: set<nat>)
    requires Inv(s, orphans) && a in s.chunks && !s.chunks[a].inuse
    ensures FreeFacts(s, a)
  {
    var c := s.chunks;
    assert Placed(c, s.segs, a) && TagOk(s, a) && RoleOk(s, a) && CalmAt(c, a);
    assert Binnable(s, a) <==> a in s.free;
    ChunkNotDirect(s, a);
    assert !s.head[a].pinuse ==> a in s.foot && FreeBefore(c, a, s.foot[a]);
    assert !s.head[a].pinuse ==> CalmAt(c, a - s.foot[a]);
    FreeNotLive(s, a, orphans);
    if a == s.top { assert SegOk(s, 0); }
  }

  ghost predicate FreePrev(s: State, p: nat, b: nat) {
    FreeFacts(s, b) && End(s.chunks, b) == p && b != s.top
  }

  /** A chunk in use that is not a segment record. */
  ghost predicate UsedFacts(s: State, p: nat) {
    && p in s.chunks && s.chunks[p].inuse && p in s.head && s.head[p].size == s.chunks[p].size && s.head[p].cinuse
    && (s.dv == s.top ==> s.dv == 0)
    && p !in s.free && p != s.top && p != s.dv && p > 0 && Aligned(p) && p !in s.direct
    && s.chunks[p].size >= MIN_CHUNK_SIZE && Aligned(s.chunks[p].size) && End(s.chunks, p) < WORD
    && (!s.head[p].pinuse ==> p in s.foot && s.foot[p] < p && FreePrev(s, p, p - s.foot[p]))
    && var n := End(s.chunks, p);
       && n in s.chunks && n in s.head && s.head[n].pinuse
       && s.head[n].cinuse == s.chunks[n].inuse && s.head[n].size == s.chunks[n].size
       && (!s.chunks[n].inuse ==> FreeFacts(s, n))
  }

  lemma UsedChunk(s: State, p: nat, orphans: set<nat>)
    requires Inv(s, orphans) && p in s.chunks && s.chunks[p].inuse && p !in s.records
    ensures UsedFacts(s, p)
  {
    hide FreeFacts;
    var c := s.chunks;
    var n := End(c, p);
    assert Placed(c, s.segs, p) && TagOk(s, p) && RoleOk(s, p);
    assert Binnable(s, p) <==> p in s.free;
    assert p != s.top && p != s.dv;
    ChunkNotDirect(s, p);
    assert TagOk(s, n);
    if !c[n].inuse { FreeChunk(s, n, orphans); }
    if !s.head[p].pinuse {
      var b: nat := p - s.foot[p];
      FreeChunk(s, b, orphans);
      BeforeNotTop(s, b, p, orphans);
    }
  }

  lemma BeforeNotTop(s: State, b: nat, p: nat, orphans: set<nat>)
    requires Inv(s, orphans) && b in s.chunks && p in s.chunks && End(s.chunks, b) == p
    ensures b != s.top && b < p
  {
    assert Placed(s.chunks, s.segs, b);
    forall k: nat | k < |s.segs| ensures s.segs[k].stop !in s.chunks { assert SegOk(s, k); }
  }

  lemma OrphanChunk(s: State, p: nat, orphans: set<nat>)
    requires Inv(s, orphans) && p in orphans
    ensures UsedFacts(s, p) && p !in s.records && p + CHUNK_OVERHEAD !in s.live
  {
    UsedChunk(s, p, orphans);
  }
}
