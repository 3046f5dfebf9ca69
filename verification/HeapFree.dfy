/** Freeing, described by its effect: the chunk and its free neighbours become one free chunk. */
module HeapFree {
  import opened Words
  import opened HeapShape
  import opened HeapPatch
  import opened HeapSteps
  import opened HeapFacts

  /** The free chunk before p (if any), p, and the free chunk after it (if any). */
  ghost function Around(s: State, p: nat): seq<nat>
    requires UsedFacts(s, p)
  {
    var n := End(s.chunks, p);
    (if s.head[p].pinuse then [p] else [p - s.foot[p], p]) + (if s.chunks[n].inuse then [] else [n])
  }

  ghost function AroundStart(s: State, p: nat): nat
    requires UsedFacts(s, p)
  {
    if s.head[p].pinuse then p else p - s.foot[p]
  }

  ghost function AroundEnd(s: State, p: nat): nat
    requires UsedFacts(s, p)
  {
    var n := End(s.chunks, p);
    if s.chunks[n].inuse then n else End(s.chunks, n)
  }

  /** The chunks around p are one free chunk, with its tags. */
  ghost predicate FreedTags(s: State, s': State, p: nat)
    requires UsedFacts(s, p)
  {
    var lo, hi := AroundStart(s, p), AroundEnd(s, p);
    && lo < hi
    && s'.chunks == Patched(s.chunks, lo, hi, One(lo, hi, false))
    && Local(s, s', lo, hi)
    && s'.head[lo] == Head(hi - lo, false, true) && !s'.head[hi].pinuse
    && (lo != s'.top ==> hi in s'.foot && s'.foot[hi] == hi - lo)
  }

  /** The merged chunk becomes top if it touches top, else the designated victim if it swallows that, else it goes into a bin. */
  ghost predicate FreedPlace(s: State, s': State, p: nat)
    requires UsedFacts(s, p)
  {
    var xs, lo, hi := Around(s, p), AroundStart(s, p), AroundEnd(s, p);
    && lo < hi
    && BinsOutside(s, s', xs)
    && (forall a | a in xs :: a in s'.free <==> a == lo && a != s'.dv && a != s'.top)
    && (lo in s'.free ==> s'.free[lo] == hi - lo)
    && (if s.top in xs then s'.top == lo && s'.topsize == hi - lo else s'.top == s.top && s'.topsize == s.topsize)
    && (if s.dv !in xs then s'.dv == s.dv && s'.dvsize == s.dvsize
        else if s.top in xs then s'.dv == 0 && s'.dvsize == 0
        else s'.dv == lo && s'.dvsize == hi - lo)
  }

  /** State s' is s with p freed. */
  ghost predicate Freed(s: State, s': State, p: nat)
    requires UsedFacts(s, p)
  {
    FreedTags(s, s', p) && FreedPlace(s, s', p)
  }

  /** Chunks that stay in use are untouched. */
  lemma FreedOthers(s: State, s': State, p: nat)
    requires UsedFacts(s, p) && Freed(s, s', p)
    ensures forall a | a in s'.chunks && s'.chunks[a].inuse :: a in s.chunks && s.chunks[a] == s'.chunks[a]
  {
  }

  lemma AroundFacts(s: State, p: nat)
    requires UsedFacts(s, p) && p !in s.records && p + CHUNK_OVERHEAD !in s.live
    ensures var xs, lo, hi := Around(s, p), AroundStart(s, p), AroundEnd(s, p);
      && xs[0] == lo && lo <= p < hi && lo in s.head && s.head[lo].pinuse
      && Run(s.chunks, xs, hi) && (hi in s.chunks || IsStop(s.segs, hi)) && (hi in s.chunks ==> s.chunks[hi].inuse)
      && Unowned(s, xs) && (hi !in s.chunks <==> s.top in xs) && hi - lo >= MIN_CHUNK_SIZE
      && (s.top in xs ==> hi == s.top + s.topsize)
      && (forall a | a in xs && a != p :: FreeFacts(s, a)) && p in xs
      && (forall a | a in xs && a != p :: a in s.chunks && !s.chunks[a].inuse)
      && (forall a | a in xs :: lo <= a < hi)
  {
    hide Run;
    var n := End(s.chunks, p);
    var hi := AroundEnd(s, p);
    RunTailFacts(s, p);
    var t := if s.chunks[n].inuse then [p] else [p, n];
    if s.head[p].pinuse {
      assert Around(s, p) == t;
    } else {
      var q: nat := p - s.foot[p];
      assert Around(s, p) == [q] + t;
      RunCons(s.chunks, q, t, hi);
    }
  }

  ghost predicate RunTail(s: State, p: nat)
    requires UsedFacts(s, p)
  {
    var n := End(s.chunks, p);
    Run(s.chunks, if s.chunks[n].inuse then [p] else [p, n], AroundEnd(s, p))
  }

  lemma RunTailFacts(s: State, p: nat)
    requires UsedFacts(s, p)
    ensures RunTail(s, p)
  {
    var n := End(s.chunks, p);
    if !s.chunks[n].inuse {
      assert [p, n][1..] == [n];
      assert Run(s.chunks, [n], End(s.chunks, n));
    }
  }

  lemma RunCons(c: Chunks, q: nat, t: seq<nat>, hi: nat)
    requires Run(c, t, hi) && q in c && End(c, q) == t[0]
    ensures Run(c, [q] + t, hi)
  {
    assert ([q] + t)[1..] == t;
  }

  /** Freeing keeps the invariant. */
  lemma FreedInv(s: State, s': State, p: nat, orphans: set<nat>)
    requires Inv(s, orphans) && p in orphans && UsedFacts(s, p) && Freed(s, s', p)
    ensures Inv(s', orphans - {p})
  {
    hide Inv, FreeFacts, Run;
    OrphanChunk(s, p, orphans);
    AroundFacts(s, p);
    var xs, lo, hi := Around(s, p), AroundStart(s, p), AroundEnd(s, p);
    OrphansUsed(s, orphans);
    assert Merge(s, s', xs, hi, false);
    assert NewTops(s, s', lo, hi, One(lo, hi, false)) by { TopsAfter(s, s', p, orphans); }
    MergeInv(s, s', xs, hi, false, orphans, orphans - {p});
  }

  lemma OrphansUsed(s: State, orphans: set<nat>)
    requires Inv(s, orphans)
    ensures forall a | a in orphans :: a in s.chunks && s.chunks[a].inuse
  {
  }

  /** Top and the designated victim lie in a run only as members of it. */
  lemma TopsInRun(s: State, xs: seq<nat>, hi: nat, orphans: set<nat>)
    requires Inv(s, orphans) && Run(s.chunks, xs, hi) && (hi in s.chunks || IsStop(s.segs, hi))
    ensures xs[0] > 0 && (s.dv == 0 <==> s.dvsize == 0)
    ensures xs[0] <= s.top < hi ==> s.top in xs
    ensures xs[0] <= s.dv < hi ==> s.dv in xs && s.dv != s.top
    ensures s.dv == s.top ==> s.dv == 0
    ensures forall a | a in xs :: xs[0] <= a < hi
  {
    RunStretch(s, xs, hi);
    assert Placed(s.chunks, s.segs, xs[0]);
  }

  lemma TopsAfter(s: State, s': State, p: nat, orphans: set<nat>)
    requires Inv(s, orphans) && p in orphans && UsedFacts(s, p) && Freed(s, s', p)
    requires p !in s.records && p + CHUNK_OVERHEAD !in s.live
    ensures NewTops(s, s', AroundStart(s, p), AroundEnd(s, p), One(AroundStart(s, p), AroundEnd(s, p), false))
  {
    hide Inv, UsedFacts, FreeFacts, Run, Around, AroundStart, AroundEnd, Local, Patched, BinsOutside, Unowned;
    AroundFacts(s, p);
    var xs, lo, hi := Around(s, p), AroundStart(s, p), AroundEnd(s, p);
    TopsInRun(s, xs, hi, orphans);
  }

  // ----- the branches of the code, each an instance of Freed

  ghost function Merged(s: State, p: nat): Chunks
    requires UsedFacts(s, p)
  {
    var lo, hi := AroundStart(s, p), AroundEnd(s, p);
    Patched(s.chunks, lo, hi, if lo < hi then One(lo, hi, false) else map[])
  }

  lemma AlignedSum(x: nat, y: nat)
    requires Aligned(x) && Aligned(y)
    ensures Aligned(x + y) && x % 8 == 0
  {
  }

  lemma MergedSize(s: State, p: nat)
    requires UsedFacts(s, p)
    ensures var lo, hi := AroundStart(s, p), AroundEnd(s, p);
      0 < lo < hi < WORD && (hi - lo) % 8 == 0
  {
    hide Aligned;
    var lo, n, hi := AroundStart(s, p), End(s.chunks, p), AroundEnd(s, p);
    if n != hi { assert Aligned(hi - n); AlignedSum(n - p, hi - n); }
    if lo != p { assert Aligned(p - lo); AlignedSum(p - lo, hi - p); }
    AlignedSum(hi - lo, hi - lo);
  }

  /** What absorbing the free chunk n after p relies on. */
  lemma NextFree(s: State, p: nat)
    requires UsedFacts(s, p) && !s.chunks[End(s.chunks, p)].inuse
    ensures var n, lo, hi := End(s.chunks, p), AroundStart(s, p), AroundEnd(s, p);
      && n in s.head && s.head[n].size == hi - n && 0 < lo < n < hi < WORD && (hi - lo) % 8 == 0
      && (n == s.top ==> s.topsize == hi - n) && (n == s.dv ==> s.dvsize == hi - n)
      && (n != s.top && n != s.dv ==> n in s.free && s.free[n] == hi - n)
      && (s.dv == s.top ==> s.dv == 0)
  {
    MergedSize(s, p);
    hide Aligned;
  }

  /** State s' after p is merged with what precedes it, while the chunk that follows is in use. */
  ghost predicate Closed(s: State, s': State, p: nat)
    requires UsedFacts(s, p)
  {
    var lo, hi := AroundStart(s, p), AroundEnd(s, p);
    && lo < hi && hi in s.head
    && s'.head == s.head[hi := s.head[hi].(pinuse := false)][lo := Head(hi - lo, false, true)]
    && s'.foot == s.foot[hi := hi - lo] && s'.chunks == Merged(s, p)
    && (if s.dv == lo then s' == s.(head := s'.head, foot := s'.foot, chunks := s'.chunks, dvsize := hi - lo)
        else s' == s.(head := s'.head, foot := s'.foot, chunks := s'.chunks, free := (s.free - {lo})[lo := hi - lo]))
  }

  lemma FreedBeforeUsed(s: State, s': State, p: nat)
    requires UsedFacts(s, p) && s.chunks[End(s.chunks, p)].inuse && Closed(s, s', p)
    ensures Freed(s, s', p)
  {
    ClosedTags(s, s', p);
    ClosedPlace(s, s', p);
  }

  lemma ClosedTags(s: State, s': State, p: nat)
    requires UsedFacts(s, p) && s.chunks[End(s.chunks, p)].inuse && Closed(s, s', p)
    ensures FreedTags(s, s', p)
  {
    hide Patched, One, Aligned;
  }

  lemma ClosedPlace(s: State, s': State, p: nat)
    requires UsedFacts(s, p) && s.chunks[End(s.chunks, p)].inuse && Closed(s, s', p)
    ensures FreedPlace(s, s', p)
  {
    hide Merged, Aligned;
  }

  /** The chunk after p is top. */
  lemma FreedBeforeTop(s: State, s': State, p: nat)
    requires UsedFacts(s, p) && End(s.chunks, p) == s.top && !s.chunks[s.top].inuse
    requires var lo, hi := AroundStart(s, p), AroundEnd(s, p);
      && s'.head == s.head[lo := Head(hi - lo, false, true)] && s'.chunks == Merged(s, p)
      && s' == s.(head := s'.head, chunks := s'.chunks, free := s.free - {lo}, top := lo, topsize := hi - lo,
                  dv := if s.dv == lo then 0 else s.dv, dvsize := if s.dv == lo then 0 else s.dvsize)
    ensures Freed(s, s', p)
  {
    hide Patched, One;
  }

  /** State s' after the free chunk that follows p, which is not top, is absorbed. */
  ghost predicate Absorbed(s: State, s': State, p: nat)
    requires UsedFacts(s, p)
  {
    var lo, n, hi := AroundStart(s, p), End(s.chunks, p), AroundEnd(s, p);
    && lo < hi
    && s'.head == s.head[lo := Head(hi - lo, false, true)]
    && s'.foot == s.foot[hi := hi - lo] && s'.chunks == Merged(s, p)
    && (if s.dv == n then
          s' == s.(head := s'.head, foot := s'.foot, chunks := s'.chunks, free := s.free - {lo}, dv := lo, dvsize := hi - lo)
        else if s.dv == lo then
          s' == s.(head := s'.head, foot := s'.foot, chunks := s'.chunks, free := s.free - {lo} - {n}, dvsize := hi - lo)
        else
          s' == s.(head := s'.head, foot := s'.foot, chunks := s'.chunks, free := (s.free - {lo} - {n})[lo := hi - lo]))
  }

  lemma FreedBeforeFree(s: State, s': State, p: nat)
    requires UsedFacts(s, p) && !s.chunks[End(s.chunks, p)].inuse && End(s.chunks, p) != s.top && Absorbed(s, s', p)
    ensures Freed(s, s', p)
  {
    AbsorbedTags(s, s', p);
    AbsorbedPlace(s, s', p);
  }

  lemma AbsorbedTags(s: State, s': State, p: nat)
    requires UsedFacts(s, p) && !s.chunks[End(s.chunks, p)].inuse && End(s.chunks, p) != s.top && Absorbed(s, s', p)
    ensures FreedTags(s, s', p)
  {
    hide Patched, One, Aligned;
  }

  lemma AbsorbedPlace(s: State, s': State, p: nat)
    requires UsedFacts(s, p) && !s.chunks[End(s.chunks, p)].inuse && End(s.chunks, p) != s.top && Absorbed(s, s', p)
    ensures FreedPlace(s, s', p)
  {
    AbsorbedBins(s, s', p);
    hide Merged, Aligned, BinsOutside;
  }

  lemma AbsorbedBins(s: State, s': State, p: nat)
    requires UsedFacts(s, p) && !s.chunks[End(s.chunks, p)].inuse && End(s.chunks, p) != s.top && Absorbed(s, s', p)
    ensures BinsOutside(s, s', Around(s, p))
    ensures forall a | a in Around(s, p) :: a in s'.free <==> a == AroundStart(s, p) && a != s'.dv && a != s'.top
  {
    hide Merged, Aligned;
  }
}
