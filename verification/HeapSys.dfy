/** Putting new system memory to use in front of a segment, and handing out direct mappings. */
module HeapSys {
  import opened Words
  import opened HeapShape
  import opened HeapPatch
  import opened HeapSteps
  import opened HeapFacts
  import opened HeapFree
  import opened HeapAlloc
  import opened HeapGrow

  /** Segment k grown down to t by two chunks in use, of nb bytes and of the rest. */
  ghost function Prepended(s: State, k: nat, t: nat, n: nat, nb: nat): State
    requires k < |s.segs| && 0 < nb < n
  {
    var s1 := ExtendedDown(s, k, t, n);
    s1.(head := s1.head[t := Head(nb, true, true)][t + nb := Head(n - nb, true, true)],
        chunks := Patched(s1.chunks, t, t + n, Two(t, t + nb, t + n, true, true)))
  }

  lemma PrependedInv(s: State, k: nat, t: nat, n: nat, nb: nat)
    requires Inv(s, {}) && Fresh(s, t, n) && k < |s.segs| && t + n == s.segs[k].base
    requires Aligned(nb) && MIN_CHUNK_SIZE <= nb && nb + MIN_CHUNK_SIZE <= n
    ensures var s2 := Prepended(s, k, t, n, nb);
      && Inv(s2, {t, t + nb}) && UsedFacts(s2, t + nb) && s2.head[t + nb].pinuse && TopAndVictim(s2)
      && t in s2.chunks && s2.chunks[t] == Chunk(nb, true) && s2.chunks[t + nb] == Chunk(n - nb, true)
  {
    hide Inv, Patched, Aligned, Fresh, UsedFacts, FreeFacts, Cut, NewTops, Run, BinsOutside, Unowned;
    var s1, s2, q, e := ExtendedDown(s, k, t, n), Prepended(s, k, t, n, nb), t + nb, t + n;
    ExtendedDownInv(s, k, t, n, {});
    assert {} + {t} == {t};
    OrphanChunk(s1, t, {t});
    InsideUnowned(s1, t, q, {t});
    PatchedAt(s1.chunks, t, e, Two(t, q, e, true, true));
    OneRun(s1, t);
    TopsInRun(s1, [t], e, {t});
    SplitCut(s1, s2, t, q, e);
    CutInv(s1, s2, [t], q, e, true, true, {t}, {t, q});
    OrphanChunk(s2, q, {t, q});
    InvTops(s2, {t, q});
  }

  lemma OneRun(s: State, p: nat)
    requires UsedFacts(s, p) && p !in s.records && p + CHUNK_OVERHEAD !in s.live
    ensures Run(s.chunks, [p], End(s.chunks, p)) && Unowned(s, [p]) && End(s.chunks, p) in s.chunks
    ensures p != s.top && p != s.dv && p !in s.free && Aligned(p) && p < End(s.chunks, p)
    ensures p in s.head && s.head[p].cinuse && End(s.chunks, p) in s.head && s.head[End(s.chunks, p)].pinuse
  {
    hide Aligned, FreeFacts;
  }

  /** Splitting the chunk in use at p into two in use. */
  lemma SplitCut(s: State, s': State, p: nat, q: nat, e: nat)
    requires p in s.chunks && p in s.head && p < q < e && e == End(s.chunks, p) && e in s.chunks && e in s.head && s.head[e].pinuse
    requires Run(s.chunks, [p], e) && Aligned(p) && Aligned(q - p) && s.head[p].pinuse
    requires s' == s.(head := s.head[p := Head(q - p, true, true)][q := Head(e - q, true, true)],
                      chunks := Patched(s.chunks, p, e, Two(p, q, e, true, true)))
    requires p != s.top && p != s.dv && q != s.top && q != s.dv && p !in s.free && q !in s.free && p > 0
    requires (p <= s.top < e ==> s.top == p) && (p <= s.dv < e ==> s.dv == p) && (s.dv == 0 <==> s.dvsize == 0)
    requires q - p >= MIN_CHUNK_SIZE && e - q >= MIN_CHUNK_SIZE
    ensures Cut(s, s', [p], q, e, true, true) && NewTops(s, s', p, e, Two(p, q, e, true, true)) && BinsOutside(s, s', [p] + [q])
  {
    AlignedSum(p, q - p);
    hide Aligned, Patched, Run;
  }

  lemma InvTops(s: State, orphans: set<nat>)
    requires Inv(s, orphans)
    ensures TopAndVictim(s)
  {
  }

  /** Handing out a direct mapping. */
  lemma AdoptDirect(s: State, p: nat, bytes: nat)
    requires Inv(s, {}) && p in s.direct && bytes + CHUNK_OVERHEAD + MMAP_FOOT_PAD <= s.direct[p]
    ensures Inv(s.(live := s.live[p + CHUNK_OVERHEAD := bytes]), {})
  {
    var s' := s.(live := s.live[p + CHUNK_OVERHEAD := bytes]);
    LiveFrame(s, s');
    forall m | m in s'.live ensures PayloadOk(s', m) { assert m in s.live ==> PayloadOk(s, m); }
    forall a | a in s'.chunks && s'.chunks[a].inuse ensures OwnerOk(s', a, {}) { assert OwnerOk(s, a, {}); }
  }
}
