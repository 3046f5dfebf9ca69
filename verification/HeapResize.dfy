/** Resizing a chunk in place, over its own bytes or also those of the free chunk after it. */
module HeapResize {
  import opened Words
  import opened HeapShape
  import opened HeapPatch
  import opened HeapSteps
  import opened HeapFacts
  import opened HeapFree
  import opened HeapAlloc

  /** The bytes to work with end at e: the end of p, or of the free chunk after p. */
  ghost predicate Reach(s: State, p: nat, e: nat) {
    && UsedFacts(s, p)
    && var n := End(s.chunks, p);
       e == n || (!s.chunks[n].inuse && e == End(s.chunks, n))
  }

  ghost function Reached(s: State, p: nat, e: nat): seq<nat>
    requires Reach(s, p, e)
  {
    if e == End(s.chunks, p) then [p] else [p, End(s.chunks, p)]
  }

  ghost function Unbinned(s: State, p: nat, e: nat): map<nat, nat>
    requires Reach(s, p, e)
  {
    if e == End(s.chunks, p) then s.free else s.free - {End(s.chunks, p)}
  }

  /** Everything up to e becomes part of p. */
  ghost predicate Widened(s: State, s': State, p: nat, e: nat)
    requires Reach(s, p, e)
  {
    && e in s.head && p < e
    && s' == s.(head := s.head[p := Head(e - p, true, s.head[p].pinuse)][e := s.head[e].(pinuse := true)],
                chunks := Patched(s.chunks, p, e, One(p, e, true)), free := Unbinned(s, p, e),
                dv := if s.dv in Reached(s, p, e) then 0 else s.dv, dvsize := if s.dv in Reached(s, p, e) then 0 else s.dvsize)
  }

  lemma ReachFacts(s: State, p: nat, e: nat, orphans: set<nat>)
    requires Inv(s, orphans) && p in orphans && Reach(s, p, e)
    ensures var xs := Reached(s, p, e);
      && Run(s.chunks, xs, e) && (e in s.chunks || IsStop(s.segs, e)) && p < e < WORD && Unowned(s, xs)
      && (forall a | a in xs :: a in s.chunks) && (forall a | a in xs && a != p :: FreeFacts(s, a) && a !in orphans)
      && (forall a | a in orphans :: a in s.chunks && s.chunks[a].inuse)
      && e in s.head && (e in s.chunks <==> s.top !in xs)
  {
    hide FreeFacts;
    OrphanChunk(s, p, orphans);
    OrphansUsed(s, orphans);
    var n := End(s.chunks, p);
    assert Run(s.chunks, [p], n);
    if e != n {
      FreeChunk(s, n, orphans);
      NextRun(s, p, n);
      hide Inv, UsedFacts, Run;
      EndFacts(s, n);
    }
  }

  lemma EndFacts(s: State, n: nat)
    requires FreeFacts(s, n)
    ensures var e := End(s.chunks, n);
      && (e in s.chunks || IsStop(s.segs, e)) && n < e < WORD && e in s.head && (e in s.chunks <==> s.top != n)
      && n !in s.records && n + CHUNK_OVERHEAD !in s.live && !s.chunks[n].inuse && n > 0
  {
  }

  lemma NextRun(s: State, p: nat, n: nat)
    requires p in s.chunks && n == End(s.chunks, p) && n in s.chunks
    ensures Run(s.chunks, [p, n], End(s.chunks, n))
  {
    assert [p, n][1..] == [n];
    assert Run(s.chunks, [n], End(s.chunks, n));
  }

  lemma WidenedInv(s: State, s': State, p: nat, e: nat, orphans: set<nat>)
    requires Inv(s, orphans) && p in orphans && Reach(s, p, e) && Widened(s, s', p, e) && s.top !in Reached(s, p, e)
    ensures Inv(s', orphans) && p in s'.chunks && s'.chunks[p] == Chunk(e - p, true)
  {
    hide Inv, Patched, Run, Unowned, FreeFacts, UsedFacts, Merge, NewTops, BinsOutside;
    var xs := Reached(s, p, e);
    ReachFacts(s, p, e, orphans);
    TopsInRun(s, xs, e, orphans);
    PatchedAt(s.chunks, p, e, One(p, e, true));
    WidenedMerge(s, s', p, e);
    WidenedTops(s, s', p, e);
    hide Widened, Reach, Reached;
    MergeInv(s, s', xs, e, true, orphans, orphans);
  }

  lemma WidenedMerge(s: State, s': State, p: nat, e: nat)
    requires Reach(s, p, e) && Widened(s, s', p, e) && Run(s.chunks, Reached(s, p, e), e) && (e in s.chunks || IsStop(s.segs, e))
    ensures Merge(s, s', Reached(s, p, e), e, true)
  {
    hide Patched, Run, FreeFacts, Aligned;
  }

  lemma WidenedTops(s: State, s': State, p: nat, e: nat)
    requires Reach(s, p, e) && Widened(s, s', p, e)
    requires var xs := Reached(s, p, e);
      && s.top !in xs && (p <= s.top < e ==> s.top in xs) && (p <= s.dv < e ==> s.dv in xs && s.dv != s.top)
      && (s.dv == 0 <==> s.dvsize == 0) && (e in s.chunks <==> s.top !in xs)
      && (forall a | a in xs && a != p :: FreeFacts(s, a))
    ensures var xs := Reached(s, p, e);
      && NewTops(s, s', p, e, One(p, e, true)) && BinsOutside(s, s', xs) && xs[0] == p
      && (forall a | a in xs :: a !in s'.free)
  {
    hide Patched, Aligned;
  }

  /**
   * The first nb bytes up to e become p.  The rest is a chunk in use, or free as the new top or
   * designated victim when the chunk after p was that.
   */
  ghost predicate Recut(s: State, s': State, p: nat, nb: nat, e: nat, v: bool)
    requires Reach(s, p, e) && 0 < nb < e - p
  {
    var r, n := p + nb, End(s.chunks, p);
    && e in s.head
    && s'.head == s.head[p := Head(nb, true, s.head[p].pinuse)][r := Head(e - r, v, true)][e := s.head[e].(pinuse := v)]
    && s'.foot == (if v || n == s.top then s.foot else s.foot[e := e - r])
    && s'.chunks == Patched(s.chunks, p, e, Two(p, r, e, true, v))
    && s' == s.(head := s'.head, foot := s'.foot, chunks := s'.chunks, free := Unbinned(s, p, e),
                dv := if !v && n == s.dv then r else s.dv, dvsize := if !v && n == s.dv then e - r else s.dvsize,
                top := if !v && n == s.top then r else s.top, topsize := if !v && n == s.top then e - r else s.topsize)
    && (if v then e != n ==> n != s.dv && n != s.top else e != n && (n == s.dv || n == s.top))
  }

  lemma RecutInv(s: State, s': State, p: nat, nb: nat, e: nat, v: bool, orphans: set<nat>)
    requires Inv(s, orphans) && p in orphans && Reach(s, p, e) && 0 < nb < e - p && Recut(s, s', p, nb, e, v)
    requires Aligned(nb) && nb >= MIN_CHUNK_SIZE && (s.top in Reached(s, p, e) || e - p - nb >= MIN_CHUNK_SIZE)
    ensures var orphans' := if v then orphans + {p + nb} else orphans;
      Inv(s', orphans') && p in s'.chunks && s'.chunks[p] == Chunk(nb, true)
    ensures p + nb in s'.chunks && s'.chunks[p + nb] == Chunk(e - p - nb, v)
  {
    hide Inv, Patched, Run, Unowned, Aligned, Cut, NewTops, BinsOutside, FreeFacts, UsedFacts, Recut, Two, IsStop;
    var r, xs := p + nb, Reached(s, p, e);
    var orphans' := if v then orphans + {r} else orphans;
    ReachFacts(s, p, e, orphans);
    TopsInRun(s, xs, e, orphans);
    MiddleUnowned(s, p, e, r, orphans);
    AlignedMid(s, p, nb);
    RecutChunks(s, s', p, nb, e, v);
    RecutCut(s, s', p, nb, e, v);
    RecutTops(s, s', p, nb, e, v);
    RecutBins(s, s', p, nb, e, v);
    RecutNeighbours(s, s', p, nb, e, v);
    hide Reach, Reached;
    CutInv(s, s', xs, r, e, true, v, orphans, orphans');
  }

  /** An address inside the reach, other than the start of the chunk after p, belongs to nothing. */
  lemma MiddleUnowned(s: State, p: nat, e: nat, r: nat, orphans: set<nat>)
    requires Inv(s, orphans) && p in orphans && Reach(s, p, e) && p < r < e
    ensures r + CHUNK_OVERHEAD !in s.live && r !in orphans
    ensures r !in Reached(s, p, e) ==> r !in s.free && r != s.top && r != s.dv
    ensures r in Reached(s, p, e) ==> r == End(s.chunks, p)
  {
    var n := End(s.chunks, p);
    if r < n {
      InsideUnowned(s, p, r, orphans);
    } else if r > n {
      InsideUnowned(s, n, r, orphans);
    } else {
      FreeChunk(s, n, orphans);
    }
  }

  lemma RecutChunks(s: State, s': State, p: nat, nb: nat, e: nat, v: bool)
    requires Reach(s, p, e) && 0 < nb < e - p && Recut(s, s', p, nb, e, v)
    ensures p in s'.chunks && s'.chunks[p] == Chunk(nb, true)
    ensures p + nb in s'.chunks && s'.chunks[p + nb] == Chunk(e - p - nb, v)
  {
    hide Patched, Aligned, UsedFacts;
    PatchedAt(s.chunks, p, e, Two(p, p + nb, e, true, v));
  }

  /** The tags outside the reach are untouched. */
  lemma RecutLocal(s: State, s': State, p: nat, nb: nat, e: nat, v: bool)
    requires Reach(s, p, e) && 0 < nb < e - p && Recut(s, s', p, nb, e, v)
    ensures Local(s, s', p, e) && Moved(s, s', p, e)
  {
    hide Patched, Aligned, Two, FreeFacts;
  }

  lemma RecutCut(s: State, s': State, p: nat, nb: nat, e: nat, v: bool)
    requires Reach(s, p, e) && 0 < nb < e - p && Recut(s, s', p, nb, e, v) && Aligned(p + nb)
    requires Run(s.chunks, Reached(s, p, e), e) && (e in s.chunks || IsStop(s.segs, e)) && e in s.head
    ensures Cut(s, s', Reached(s, p, e), p + nb, e, true, v)
  {
    hide Patched, Run, Aligned, Two, FreeFacts, Local, Moved, IsStop, UsedFacts;
    RecutLocal(s, s', p, nb, e, v);
  }

  lemma AlignedMid(s: State, p: nat, nb: nat)
    requires UsedFacts(s, p) && Aligned(nb)
    ensures Aligned(p + nb)
  {
    hide Aligned;
    AlignedSum(p, nb);
  }

  lemma RecutNeighbours(s: State, s': State, p: nat, nb: nat, e: nat, v: bool)
    requires Reach(s, p, e) && 0 < nb < e - p && Recut(s, s', p, nb, e, v)
    ensures !v && e in s.chunks ==> s.chunks[e].inuse
  {
    hide Aligned, Patched;
  }

  lemma RecutTops(s: State, s': State, p: nat, nb: nat, e: nat, v: bool)
    requires Reach(s, p, e) && 0 < nb < e - p && Recut(s, s', p, nb, e, v)
    requires nb >= MIN_CHUNK_SIZE && (s.top in Reached(s, p, e) || e - p - nb >= MIN_CHUNK_SIZE)
    requires var xs := Reached(s, p, e);
      && (p <= s.top < e ==> s.top in xs) && (p <= s.dv < e ==> s.dv in xs && s.dv != s.top)
      && (s.dv == s.top ==> s.dv == 0) && (s.dv == 0 <==> s.dvsize == 0) && (e in s.chunks <==> s.top !in xs)
    ensures NewTops(s, s', p, e, Two(p, p + nb, e, true, v))
  {
    hide Patched, FreeFacts;
  }

  lemma RecutBins(s: State, s': State, p: nat, nb: nat, e: nat, v: bool)
    requires Reach(s, p, e) && 0 < nb < e - p && Recut(s, s', p, nb, e, v)
    requires p + nb !in Reached(s, p, e) ==> p + nb !in s.free && p + nb != s.top && p + nb != s.dv
    requires p + nb in Reached(s, p, e) ==> p + nb == End(s.chunks, p)
    ensures var xs := Reached(s, p, e);
      && BinsOutside(s, s', xs + [p + nb]) && p !in s'.free && xs[0] == p
      && (forall a | a in xs || a == p + nb :: a in s'.free <==> a == p + nb && !v && a != s'.dv && a != s'.top)
      && p + nb !in s'.free
  {
    hide Patched, Two;
  }
}
