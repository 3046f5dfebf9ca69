/** Taking memory from a free chunk, and handing payloads out and in. */
module HeapAlloc {
  import opened Words
  import opened HeapShape
  import opened HeapPatch
  import opened HeapSteps
  import opened HeapFacts
  import opened HeapFree

  /** The whole free chunk p is put to use. */
  ghost predicate TakenWhole(s: State, s': State, p: nat)
    requires FreeFacts(s, p)
  {
    var e := End(s.chunks, p);
    && s' == s.(head := s.head[p := Head(e - p, true, true)][e := s.head[e].(pinuse := true)],
                chunks := Patched(s.chunks, p, e, One(p, e, true)), free := s.free - {p},
                dv := if p == s.dv then 0 else s.dv, dvsize := if p == s.dv then 0 else s.dvsize)
  }

  lemma TakenWholeInv(s: State, s': State, p: nat, orphans: set<nat>)
    requires Inv(s, orphans) && FreeFacts(s, p) && p != s.top && TakenWhole(s, s', p)
    ensures Inv(s', orphans + {p})
    ensures p in s'.chunks && s'.chunks[p] == Chunk(s.chunks[p].size, true)
  {
    hide Inv, Patched, Aligned, Merge;
    var e := End(s.chunks, p);
    OrphansUsed(s, orphans);
    assert Run(s.chunks, [p], e);
    TopsInRun(s, [p], e, orphans);
    WholeMerge(s, s', p);
    MergeInv(s, s', [p], e, true, orphans, orphans + {p});
    PatchedAt(s.chunks, p, e, One(p, e, true));
  }

  lemma WholeMerge(s: State, s': State, p: nat)
    requires FreeFacts(s, p) && p != s.top && TakenWhole(s, s', p)
    ensures Merge(s, s', [p], End(s.chunks, p), true)
  {
    hide Patched, Aligned;
    assert Run(s.chunks, [p], End(s.chunks, p));
  }

  lemma PatchedAt(c: Chunks, lo: nat, hi: nat, n: Chunks)
    ensures forall a | a in n :: a in Patched(c, lo, hi, n) && Patched(c, lo, hi, n)[a] == n[a]
  {
  }

  /** Where the remainder of a cut chunk goes. */
  datatype Remainder = ToTop | ToVictim | ToBin

  /** The first nb bytes of the free chunk p are put to use and the rest stays free. */
  ghost predicate TakenPart(s: State, s': State, p: nat, nb: nat, rest: Remainder)
    requires FreeFacts(s, p) && 0 < nb < s.chunks[p].size
  {
    var r, e := p + nb, End(s.chunks, p);
    && s'.head == s.head[p := Head(nb, true, true)][r := Head(e - r, false, true)]
    && (rest == ToTop || s'.foot == s.foot[e := e - r]) && (rest == ToTop ==> s'.foot == s.foot)
    && s'.chunks == Patched(s.chunks, p, e, Two(p, r, e, true, false))
    && (match rest
        case ToTop => p == s.top && s' == s.(head := s'.head, chunks := s'.chunks, top := r, topsize := e - r)
        case ToVictim =>
          && p != s.top && (s.dv == 0 || s.dv == p)
          && s' == s.(head := s'.head, foot := s'.foot, chunks := s'.chunks, free := s.free - {p}, dv := r, dvsize := e - r)
        case ToBin =>
          && p != s.top && p != s.dv
          && s' == s.(head := s'.head, foot := s'.foot, chunks := s'.chunks, free := (s.free - {p})[r := e - r]))
  }

  lemma TakenPartInv(s: State, s': State, p: nat, nb: nat, rest: Remainder, orphans: set<nat>)
    requires Inv(s, orphans) && FreeFacts(s, p) && 0 < nb < s.chunks[p].size && TakenPart(s, s', p, nb, rest)
    requires Aligned(nb) && nb >= MIN_CHUNK_SIZE && (rest != ToTop ==> s.chunks[p].size - nb >= MIN_CHUNK_SIZE)
    ensures Inv(s', orphans + {p})
    ensures p in s'.chunks && s'.chunks[p] == Chunk(nb, true)
  {
    hide Inv, Patched, Aligned, Cut, NewTops, BinsOutside;
    var r, e := p + nb, End(s.chunks, p);
    OrphansUsed(s, orphans);
    assert Run(s.chunks, [p], e);
    TopsInRun(s, [p], e, orphans);
    InsideUnowned(s, p, r, orphans);
    PatchedAt(s.chunks, p, e, Two(p, r, e, true, false));
    PartTops(s, s', p, nb, rest);
    PartCut(s, s', p, nb, rest);
    PartBins(s, s', p, nb, rest);
    assert Unowned(s, [p]) && (e in s.chunks ==> s.chunks[e].inuse);
    hide Run, Two, TakenPart, FreeFacts, Unowned, IsStop;
    CutInv(s, s', [p], r, e, true, false, orphans, orphans + {p});
  }

  lemma PartCut(s: State, s': State, p: nat, nb: nat, rest: Remainder)
    requires FreeFacts(s, p) && 0 < nb < s.chunks[p].size && TakenPart(s, s', p, nb, rest) && Aligned(nb)
    ensures Cut(s, s', [p], p + nb, End(s.chunks, p), true, false)
  {
    AlignedSum(p, nb);
    hide Patched, Aligned, Two;
    assert Run(s.chunks, [p], End(s.chunks, p));
  }

  lemma PartBins(s: State, s': State, p: nat, nb: nat, rest: Remainder)
    requires FreeFacts(s, p) && 0 < nb < s.chunks[p].size && TakenPart(s, s', p, nb, rest)
    requires p + nb !in s.free && (s.dv == s.top ==> s.dv == 0) && p + nb != s.dv && p + nb != s.top
    ensures var r, e := p + nb, End(s.chunks, p);
      && BinsOutside(s, s', [p] + [r]) && p !in s'.free
      && (r in s'.free <==> r != s'.dv && r != s'.top) && (r in s'.free ==> s'.free[r] == e - r)
      && s'.chunks == Patched(s.chunks, p, e, Two(p, r, e, true, false))
  {
    hide Patched, Two;
  }

  lemma PartTops(s: State, s': State, p: nat, nb: nat, rest: Remainder)
    requires FreeFacts(s, p) && 0 < nb < s.chunks[p].size && TakenPart(s, s', p, nb, rest)
    requires nb >= MIN_CHUNK_SIZE && (rest != ToTop ==> s.chunks[p].size - nb >= MIN_CHUNK_SIZE)
    requires (s.dv == 0 <==> s.dvsize == 0) && (p <= s.top < End(s.chunks, p) ==> s.top == p)
    requires (p <= s.dv < End(s.chunks, p) ==> s.dv == p) && (s.dv == s.top ==> s.dv == 0)
    ensures NewTops(s, s', p, End(s.chunks, p), Two(p, p + nb, End(s.chunks, p), true, false))
  {
    hide Patched;
  }

  /** An address strictly inside a chunk is not a chunk, not binned and not before a payload. */
  lemma InsideUnowned(s: State, p: nat, r: nat, orphans: set<nat>)
    requires Inv(s, orphans) && p in s.chunks && p < r < End(s.chunks, p)
    ensures r !in s.chunks && r !in s.free && r !in orphans && r + CHUNK_OVERHEAD !in s.live && r != s.top && r != s.dv && r !in s.direct
  {
    assert r in s.chunks ==> Apart(s.chunks, p, r);
    assert Binnable(s, r) <==> r in s.free;
    assert Placed(s.chunks, s.segs, p);
    var k: nat :| k < |s.segs| && s.segs[k].base <= p < s.segs[k].stop;
    assert SegOk(s, k);
    NotDirect(s, k, r);
    assert r + CHUNK_OVERHEAD in s.live ==> PayloadOk(s, r + CHUNK_OVERHEAD);
  }

  /** Moving the designated victim into a bin. */
  ghost function VictimBinned(s: State): State {
    if s.dv == 0 then s else s.(free := s.free[s.dv := s.dvsize], dv := 0, dvsize := 0)
  }

  lemma VictimBinnedInv(s: State, orphans: set<nat>)
    requires Inv(s, orphans)
    ensures Inv(VictimBinned(s), orphans)
  {
    if s.dv != 0 {
      var s' := VictimBinned(s);
      NullFree(s);
      VictimBins(s, s');
      hide VictimBinned, Layout, Calm, Binned, TopAndVictim;
      SegmentsSame(s, s');
      TagsSame(s, s');
      OwnedSame(s, s', orphans);
    }
  }

  lemma VictimBins(s: State, s': State)
    requires TopAndVictim(s) && Binned(s) && s.dv != 0 && 0 !in s.chunks
    requires s' == s.(free := s.free[s.dv := s.dvsize], dv := 0, dvsize := 0)
    ensures TopAndVictim(s') && Binned(s')
  {
    forall a | a in s'.chunks ensures RoleOk(s', a) { assert RoleOk(s, a); }
    forall a: nat
      ensures a in s'.free <==> Binnable(s', a)
      ensures a in s'.free ==> s'.free[a] == s'.chunks[a].size
    {
      assert Binnable(s, a) <==> a in s.free;
    }
  }

  lemma TagsSame(s: State, s': State)
    requires Tagged(s) && s'.head == s.head && s'.foot == s.foot && s'.chunks == s.chunks && s'.top == s.top
    ensures Tagged(s')
  {
    forall a | a in s'.chunks ensures TagOk(s', a) { assert TagOk(s, a); }
  }

  lemma SegmentsSame(s: State, s': State)
    requires Segments(s) && s'.segs == s.segs && s'.direct == s.direct && s'.head == s.head && s'.chunks == s.chunks
    ensures Segments(s')
  {
    forall k: nat | k < |s.segs| ensures SegOk(s', k) { assert SegOk(s, k); }
    forall p | p in s.direct ensures DirectOk(s', p) { assert DirectOk(s, p); }
    forall k: nat, p | k < |s.segs| && p in s.direct ensures DirectApart(s', k, p) { assert DirectApart(s, k, p); }
    forall p, q | p in s.direct && q in s.direct && p != q ensures DirectsApart(s', p, q) { assert DirectsApart(s, p, q); }
  }

  lemma OwnedSame(s: State, s': State, orphans: set<nat>)
    requires Owned(s, orphans) && s'.live == s.live && s'.chunks == s.chunks && s'.records == s.records && s'.direct == s.direct
    ensures Owned(s', orphans)
  {
    forall m | m in s.live ensures PayloadOk(s', m) { assert PayloadOk(s, m); }
    forall a | a in s.chunks && s.chunks[a].inuse ensures OwnerOk(s', a, orphans) { assert OwnerOk(s, a, orphans); }
  }

  // ----- payloads

  /** Handing out the payload of an orphan. */
  lemma AdoptInv(s: State, p: nat, bytes: nat, orphans: set<nat>)
    requires Inv(s, orphans) && p in orphans && bytes + CHUNK_OVERHEAD <= s.chunks[p].size
    ensures Inv(s.(live := s.live[p + CHUNK_OVERHEAD := bytes]), orphans - {p})
  {
    var s' := s.(live := s.live[p + CHUNK_OVERHEAD := bytes]);
    LiveFrame(s, s');
    forall m | m in s'.live ensures PayloadOk(s', m) { assert m in s.live ==> PayloadOk(s, m); }
    forall a | a in s'.chunks && s'.chunks[a].inuse ensures OwnerOk(s', a, orphans - {p}) { assert OwnerOk(s, a, orphans); }
  }

  /** Taking a payload back turns its chunk into an orphan, unless it was mapped directly. */
  lemma DropInv(s: State, m: nat, orphans: set<nat>)
    requires Inv(s, orphans) && m in s.live
    ensures m >= CHUNK_OVERHEAD
    ensures var p := m - CHUNK_OVERHEAD;
      Inv(s.(live := s.live - {m}), if p in s.chunks then orphans + {p} else orphans)
  {
    var p := m - CHUNK_OVERHEAD;
    var s' := s.(live := s.live - {m});
    var orphans' := if p in s.chunks then orphans + {p} else orphans;
    assert PayloadOk(s, m);
    if p in s.chunks { ChunkNotDirect(s, p); }
    LiveFrame(s, s');
    forall k | k in s'.live ensures PayloadOk(s', k) { assert PayloadOk(s, k); }
    forall a | a in s'.chunks && s'.chunks[a].inuse ensures OwnerOk(s', a, orphans') { assert OwnerOk(s, a, orphans); }
  }

  lemma LiveFrame(s: State, s': State)
    requires Layout(s.chunks, s.segs) && Calm(s.chunks) && Tagged(s) && Segments(s) && TopAndVictim(s) && Binned(s)
    requires s' == s.(live := s'.live)
    ensures Layout(s'.chunks, s'.segs) && Calm(s'.chunks) && Tagged(s') && Segments(s') && TopAndVictim(s') && Binned(s')
  {
    forall a | a in s'.chunks ensures TagOk(s', a) && RoleOk(s', a) { assert TagOk(s, a) && RoleOk(s, a); }
    SegmentsSame(s, s');
    forall a: nat
      ensures a in s'.free <==> Binnable(s', a)
      ensures a in s'.free ==> s'.free[a] == s'.chunks[a].size
    {
      assert Binnable(s, a) <==> a in s.free;
    }
  }
}
