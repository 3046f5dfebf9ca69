/** The kernel heap: malloc, free and realloc over boundary-tagged chunks, updated in place. */
module Malloc {
  import opened Words
  import opened HeapShape
  import opened HeapPatch
  import opened HeapSteps
  import opened HeapFacts
  import opened HeapFree
  import opened HeapAlloc
  import opened HeapGrow
  import opened HeapSys
  import opened HeapResize
  import opened HeapTheorems
  import opened HeapPolicy
  import Bins
  import TB = TreeBins

  class Heap {
    var head: map<nat, Head>
    var foot: map<nat, nat>
    var segs: seq<Segment>
    var dv: nat
    var dvsize: nat
    var top: nat
    var topsize: nat
    var releaseChecks: nat
    /** What the users of the heap keep in memory. */
    var data: map<nat, nat>
    const bins: Bins.Bins

    ghost var chunks: Chunks
    ghost var direct: map<nat, nat>
    ghost var records: set<nat>
    ghost var live: map<nat, nat>

    ghost function S(): State
      reads this, bins
    {
      State(head, foot, chunks, segs, direct, records, live, bins.free, dv, dvsize, top, topsize)
    }

    function At(a: nat): (b: nat)
      reads this`data
    {
      Byte(data, a)
    }

    ghost predicate ValidWith(orphans: set<nat>)
      reads this, bins, bins.trees
    {
      bins.Valid() && Inv(S(), orphans) && (segs != [] ==> top != 0 && releaseChecks > 0)
    }

    /** Between calls every chunk in use is a live payload or a segment record. */
    ghost predicate Valid()
      reads this, bins, bins.trees
    {
      ValidWith({})
    }

    constructor ()
      ensures ValidWith({}) && live == map[] && segs == [] && direct == map[] && releaseChecks == 0 && fresh(bins) && fresh(bins.trees)
    {
      head, foot, segs, chunks := map[], map[], [], map[];
      dv, dvsize, top, topsize, releaseChecks := 0, 0, 0, 0, 0;
      direct, records, live, data := map[], {}, map[], map[];
      bins := new Bins.Bins();
    }

    /** Consolidate the chunk at p with free neighbours and bin it, or make it part of dv or top. */
    method DisposeChunk(p: nat, ghost orphans: set<nat>) returns (binned: nat)
      requires ValidWith(orphans) && p in orphans
      modifies this`head, this`foot, this`dv, this`dvsize, this`top, this`topsize, this`chunks, bins, bins.trees
      ensures ValidWith(orphans - {p})
      ensures UsedFacts(old(S()), p) && Freed(old(S()), S(), p) && binned == BinnedAt(S(), AroundStart(old(S()), p))
    {
      ghost var s := S();
      OrphanChunk(s, p, orphans);
      hide Inv;
      binned := Coalesce(p);
      FreedInv(s, S(), p, orphans);
    }

    method Coalesce(p: nat) returns (binned: nat)
      requires bins.Valid() && UsedFacts(S(), p)
      modifies this`head, this`foot, this`dv, this`dvsize, this`top, this`topsize, this`chunks, bins, bins.trees
      ensures bins.Valid() && UsedFacts(old(S()), p) && Freed(old(S()), S(), p)
      ensures binned == BinnedAt(S(), AroundStart(old(S()), p))
    {
      hide Freed, Merged, Aligned, Bins.Bins.Valid;
      ghost var s := S();
      MergedSize(s, p);
      binned := 0;
      var psize := head[p].size;
      var next := p + psize;
      var q := p;
      if !head[p].pinuse {
        var prevsize := foot[p];
        q := p - prevsize;
        psize := psize + prevsize;
        if q != dv {
          bins.UnlinkChunk(q, prevsize);
        } else if head[next].cinuse && head[next].pinuse {
          dvsize := psize;
          head := head[next := head[next].(pinuse := false)];
          head := head[q := Head(psize, false, true)];
          foot := foot[next := psize];
          chunks := Merged(s, p);
          FreedBeforeUsed(s, S(), p);
          return;
        }
      }
      assert bins.free == s.free - {q};
      if !head[next].cinuse {
        binned := AbsorbNext(p, q, psize, next, s);
      } else {
        binned := BinMerged(p, q, psize, next, s);
      }
    }

    /** Bin the chunk from q to next, which is in use. */
    method BinMerged(p: nat, q: nat, psize: nat, next: nat, ghost s: State) returns (binned: nat)
      requires bins.Valid() && UsedFacts(s, p) && S() == s.(free := s.free - {q}) && q != s.dv
      requires next == End(s.chunks, p) && s.chunks[next].inuse && q == AroundStart(s, p) && psize == next - q
      modifies this`head, this`foot, this`chunks, bins, bins.trees
      ensures bins.Valid() && Freed(s, S(), p) && binned == BinnedAt(S(), q)
    {
      hide Freed, Merged, Aligned, Bins.Bins.Valid, FreeFacts;
      MergedSize(s, p);
      head := head[next := head[next].(pinuse := false)];
      head := head[q := Head(psize, false, true)];
      foot := foot[next := psize];
      chunks := Merged(s, p);
      bins.InsertChunk(q, psize);
      binned := psize;
      FreedBeforeUsed(s, S(), p);
    }

    /** The forward half: the chunk from q to next is joined with the free chunk at next. */
    method AbsorbNext(p: nat, q: nat, psize: nat, next: nat, ghost s: State) returns (binned: nat)
      requires bins.Valid() && UsedFacts(s, p) && S() == s.(free := s.free - {q})
      requires next == End(s.chunks, p) && !s.chunks[next].inuse && q == AroundStart(s, p) && psize == next - q
      modifies this`head, this`foot, this`dv, this`dvsize, this`top, this`topsize, this`chunks, bins, bins.trees
      ensures bins.Valid() && Freed(s, S(), p) && binned == BinnedAt(S(), q)
    {
      hide Freed, UsedFacts, AroundStart, Bins.Bins.Valid;
      if next == top {
        AbsorbTop(p, q, psize, next, s);
        binned := 0;
      } else if next == dv {
        AbsorbVictim(p, q, psize, next, s);
        binned := 0;
      } else {
        binned := AbsorbBinned(p, q, psize, next, s);
      }
    }

    method AbsorbTop(p: nat, q: nat, psize: nat, next: nat, ghost s: State)
      requires UsedFacts(s, p) && S() == s.(free := s.free - {q})
      requires next == End(s.chunks, p) && !s.chunks[next].inuse && q == AroundStart(s, p) && psize == next - q
      requires next == top
      modifies this`head, this`dv, this`dvsize, this`top, this`topsize, this`chunks
      ensures Freed(s, S(), p) && BinnedAt(S(), q) == 0
    {
      hide Freed, Merged, UsedFacts, AroundStart, AroundEnd, FreeFacts;
      NextFree(s, p);
      topsize := topsize + psize;
      top := q;
      head := head[q := Head(topsize, false, true)];
      if q == dv {
        dv, dvsize := 0, 0;
      }
      chunks := Merged(s, p);
      FreedBeforeTop(s, S(), p);
    }

    method AbsorbVictim(p: nat, q: nat, psize: nat, next: nat, ghost s: State)
      requires UsedFacts(s, p) && S() == s.(free := s.free - {q})
      requires next == End(s.chunks, p) && !s.chunks[next].inuse && q == AroundStart(s, p) && psize == next - q
      requires next == dv && next != top
      modifies this`head, this`foot, this`dv, this`dvsize, this`chunks
      ensures Freed(s, S(), p) && BinnedAt(S(), q) == 0
    {
      hide Freed, Merged, UsedFacts, AroundStart, AroundEnd, FreeFacts;
      NextFree(s, p);
      dvsize := dvsize + psize;
      dv := q;
      head := head[q := Head(dvsize, false, true)];
      foot := foot[q + dvsize := dvsize];
      chunks := Merged(s, p);
      FreedBeforeFree(s, S(), p);
    }

    method AbsorbBinned(p: nat, q: nat, psize: nat, next: nat, ghost s: State) returns (binned: nat)
      requires bins.Valid() && UsedFacts(s, p) && S() == s.(free := s.free - {q})
      requires next == End(s.chunks, p) && !s.chunks[next].inuse && q == AroundStart(s, p) && psize == next - q
      requires next != top && next != dv
      modifies this`head, this`foot, this`dvsize, this`chunks, bins, bins.trees
      ensures bins.Valid() && Freed(s, S(), p) && binned == BinnedAt(S(), q)
    {
      hide Freed, Merged, UsedFacts, AroundStart, AroundEnd, Bins.Bins.Valid;
      NextFree(s, p);
      binned := 0;
      var nsize := head[next].size;
      bins.UnlinkChunk(next, nsize);
      head := head[q := Head(psize + nsize, false, true)];
      foot := foot[q + psize + nsize := psize + nsize];
      chunks := Merged(s, p);
      if q == dv {
        dvsize := psize + nsize;
      } else {
        bins.InsertChunk(q, psize + nsize);
        binned := psize + nsize;
      }
      FreedBeforeFree(s, S(), p);
    }

    // ----- taking memory from free chunks

    /** Mark the whole free chunk p of z bytes in use; it has already left its bin or the victim slot. */
    method UseWhole(p: nat, z: nat, ghost s: State)
      requires FreeFacts(s, p) && z == s.chunks[p].size
      requires S() == s.(free := s.free - {p}, dv := if p == s.dv then 0 else s.dv, dvsize := if p == s.dv then 0 else s.dvsize)
      modifies this`head, this`chunks
      ensures TakenWhole(s, S(), p)
    {
      hide Patched, One;
      head := head[p := Head(z, true, true)];
      head := head[p + z := head[p + z].(pinuse := true)];
      chunks := Patched(chunks, p, p + z, One(p, p + z, true));
    }

    /** Mark the first nb bytes of p in use; the rest becomes a free chunk, not yet in a bin. */
    method UsePart(p: nat, nb: nat, z: nat)
      requires 0 < nb < z
      modifies this`head, this`foot, this`chunks
      ensures head == old(head)[p := Head(nb, true, true)][p + nb := Head(z - nb, false, true)]
      ensures foot == old(foot)[p + z := z - nb]
      ensures chunks == Patched(old(chunks), p, p + z, Two(p, p + nb, p + z, true, false))
    {
      head := head[p := Head(nb, true, true)];
      head := head[p + nb := Head(z - nb, false, true)];
      foot := foot[p + z := z - nb];
      chunks := Patched(chunks, p, p + z, Two(p, p + nb, p + z, true, false));
    }

    /** Make the remainder at r the designated victim, binning the old one, which is small. */
    method ReplaceDv(r: nat, rsize: nat)
      requires bins.Valid() && (dvsize == 0 || (dv !in bins.free && Bins.IsSmall(dvsize) && dvsize % 8 == 0))
      modifies this`dv, this`dvsize, bins
      ensures bins.Valid() && dv == r && dvsize == rsize
      ensures bins.free == if old(dvsize) == 0 then old(bins.free) else old(bins.free)[old(dv) := old(dvsize)]
    {
      if dvsize != 0 {
        bins.InsertSmallChunk(dv, dvsize);
      }
      dvsize := rsize;
      dv := r;
    }

    /** Hand out the whole chunk p of z bytes, which has left its bin. */
    method HandWhole(p: nat, z: nat, ghost nb: nat, ghost s: State)
      requires bins.Valid() && Inv(s, {}) && FreeFacts(s, p) && p != s.top && p != s.dv && S() == s.(free := s.free - {p})
      requires z == s.chunks[p].size && nb <= z < nb + MIN_CHUNK_SIZE && (segs != [] ==> top != 0 && releaseChecks > 0)
      modifies this`head, this`chunks
      ensures ValidWith({p}) && p in chunks && chunks[p].size == z && Handed(s, S(), p, nb)
    {
      hide Inv, Bins.Bins.Valid, TakenWhole, FreeFacts, Handed;
      UseWhole(p, z, s);
      TakenWholeInv(s, S(), p, {});
      HandedWhole(s, S(), p, nb);
      assert {} + {p} == {p};
    }

    /** Use binned chunk p of z bytes for a small request; a remainder becomes the designated victim. */
    method CarveSmall(p: nat, z: nat, nb: nat)
      requires ValidWith({}) && p in bins.free && bins.free[p] == z
      requires Aligned(nb) && MIN_CHUNK_SIZE <= nb <= z && dvsize < nb && Bins.IsSmall(nb)
      modifies this`head, this`foot, this`dv, this`dvsize, this`chunks, bins, bins.trees
      ensures ValidWith({p}) && p in chunks && nb <= chunks[p].size < nb + MIN_CHUNK_SIZE
      ensures Handed(old(S()), S(), p, nb)
    {
      hide Inv, Bins.Bins.Valid, TakenWhole, TakenPart, Aligned, Patched, One, Two, FreeFacts, Handed;
      ghost var s := S();
      BinnedFree(s, p, {});
      VictimFacts(s, {});
      bins.UnlinkChunk(p, z);
      if z - nb < MIN_CHUNK_SIZE {
        HandWhole(p, z, nb, s);
      } else {
        UsePart(p, nb, z);
        ReplaceDv(p + nb, z - nb);
        CarvedSmall(s, S(), p, nb);
      }
    }

    /** Use binned chunk p of z bytes for a large request; a remainder goes back into a bin. */
    method CarveLarge(p: nat, z: nat, nb: nat)
      requires ValidWith({}) && p in bins.free && bins.free[p] == z
      requires Aligned(nb) && MIN_CHUNK_SIZE <= nb <= z && !Bins.IsSmall(nb)
      modifies this`head, this`foot, this`dv, this`dvsize, this`chunks, bins, bins.trees
      ensures ValidWith({p}) && p in chunks && nb <= chunks[p].size < nb + MIN_CHUNK_SIZE
      ensures Handed(old(S()), S(), p, nb)
    {
      hide Inv, Bins.Bins.Valid, TakenWhole, Aligned, Patched, One, Two, FreeFacts, Handed;
      ghost var s := S();
      BinnedFree(s, p, {});
      VictimFacts(s, {});
      RemainderFacts(s, p, nb, {});
      bins.UnlinkChunk(p, z);
      if z - nb < MIN_CHUNK_SIZE {
        HandWhole(p, z, nb, s);
      } else {
        UsePart(p, nb, z);
        bins.InsertChunk(p + nb, z - nb);
        TakenPartInv(s, S(), p, nb, ToBin, {});
        HandedPart(s, S(), p, nb, ToBin);
        assert {} + {p} == {p};
      }
    }

    /** Use the designated victim, splitting it if the rest is large enough to be a chunk. */
    method UseVictim(nb: nat) returns (p: nat)
      requires ValidWith({}) && Aligned(nb) && MIN_CHUNK_SIZE <= nb <= dvsize
      modifies this`head, this`foot, this`dv, this`dvsize, this`chunks
      ensures p == old(dv) && ValidWith({p}) && p in chunks && nb <= chunks[p].size < nb + MIN_CHUNK_SIZE
      ensures Handed(old(S()), S(), p, nb)
    {
      hide Inv, Bins.Bins.Valid, TakenWhole, Aligned, Patched, One, Two, FreeFacts, Handed;
      ghost var s := S();
      VictimFacts(s, {});
      var rsize := dvsize - nb;
      p := dv;
      assert s.free - {p} == s.free;
      if rsize >= MIN_CHUNK_SIZE {
        UsePart(p, nb, dvsize);
        dv := p + nb;
        dvsize := rsize;
        TakenPartInv(s, S(), p, nb, ToVictim, {});
        HandedPart(s, S(), p, nb, ToVictim);
        assert {} + {p} == {p};
      } else {
        ExhaustVictim(nb);
      }
    }

    /** Use the whole designated victim. */
    method ExhaustVictim(ghost nb: nat)
      requires ValidWith({}) && dv != 0 && nb <= dvsize < nb + MIN_CHUNK_SIZE
      modifies this`head, this`dv, this`dvsize, this`chunks
      ensures ValidWith({old(dv)}) && old(dv) in chunks && chunks[old(dv)].size == old(dvsize)
      ensures Handed(old(S()), S(), old(dv), nb)
    {
      hide Inv, Bins.Bins.Valid, TakenWhole, Aligned, Patched, One, FreeFacts, Handed;
      ghost var s := S();
      VictimFacts(s, {});
      var p, z := dv, dvsize;
      assert s.free - {p} == s.free;
      dvsize := 0;
      dv := 0;
      UseWhole(p, z, s);
      TakenWholeInv(s, S(), p, {});
      HandedWhole(s, S(), p, nb);
      assert {} + {p} == {p};
    }

    /** Take nb bytes from the start of top. */
    method SplitTop(nb: nat) returns (p: nat)
      requires ValidWith({}) && Aligned(nb) && MIN_CHUNK_SIZE <= nb < topsize
      modifies this`head, this`top, this`topsize, this`chunks
      ensures p == old(top) && ValidWith({p}) && p in chunks && nb <= chunks[p].size < nb + MIN_CHUNK_SIZE
      ensures Handed(old(S()), S(), p, nb)
    {
      hide Inv, Bins.Bins.Valid, Aligned, Patched, Two, FreeFacts, Handed;
      ghost var s := S();
      TopFacts(s, {});
      p := top;
      var rsize := topsize - nb;
      topsize := rsize;
      top := p + nb;
      head := head[top := Head(rsize, false, true)];
      head := head[p := Head(nb, true, true)];
      assert head == s.head[p := Head(nb, true, true)][p + nb := Head(rsize, false, true)];
      chunks := Patched(chunks, p, p + nb + rsize, Two(p, p + nb, p + nb + rsize, true, false));
      TakenPartInv(s, S(), p, nb, ToTop, {});
      HandedPart(s, S(), p, nb, ToTop);
      assert {} + {p} == {p};
    }

    // ----- memory from the system

    /** Start a segment of tsize bytes at tbase that is all top. */
    method InitSegment(tbase: nat, tsize: nat)
      requires bins.Valid() && Inv(S(), {}) && top == 0 && Fresh(S(), tbase, tsize) && tsize >= TOP_FOOT_SIZE + ALIGNMENT
      requires releaseChecks > 0
      modifies this`head, this`segs, this`top, this`topsize, this`chunks
      ensures Valid() && S() == WithTop(old(S()), tbase, tsize)
    {
      hide Inv, Bins.Bins.Valid, Paged;
      ghost var s := S();
      WithTopInv(s, tbase, tsize, {});
      var psize := tsize - TOP_FOOT_SIZE;
      segs := [Segment(tbase, tsize, tbase + psize)] + segs;
      top := tbase;
      topsize := psize;
      head := head[top := Head(psize, false, true)];
      head := head[top + psize := Head(TOP_FOOT_SIZE, false, false)];
      chunks := chunks[tbase := Chunk(psize, false)];
      assert S() == WithTop(s, tbase, tsize);
    }

    /** Extend the segment that holds top, and top with it, by tsize bytes that follow it. */
    method AppendToTop(tsize: nat)
      requires Valid() && segs != [] && Fresh(S(), segs[0].base + segs[0].size, tsize)
      modifies this`head, this`segs, this`topsize, this`chunks
      ensures Valid() && S() == ExtendedUp(old(S()), tsize)
    {
      hide Inv, Bins.Bins.Valid, Fresh;
      ghost var s := S();
      ExtendedUpInv(s, tsize, {});
      var g := segs[0];
      segs := segs[0 := Segment(g.base, g.size + tsize, g.stop + tsize)];
      topsize := topsize + tsize;
      head := head[top := Head(topsize, false, true)];
      head := head[top + topsize := Head(TOP_FOOT_SIZE, false, false)];
      chunks := chunks[top := Chunk(topsize, false)];
      assert S() == ExtendedUp(s, tsize);
    }

    /** Find the segment that holds address a. */
    method SegmentHolding(a: nat) returns (k: nat)
      ensures k <= |segs| && (forall j: nat | j < k :: !Holds(segs[j], a)) && (k < |segs| ==> Holds(segs[k], a))
    {
      k := 0;
      while k < |segs| && !Holds(segs[k], a)
        invariant k <= |segs| && forall j: nat | j < k :: !Holds(segs[j], a)
      {
        k := k + 1;
      }
    }

    /** Fill the bytes from tnext to end with fencepost heads. */
    method Fence(tnext: nat, end: nat)
      requires tnext + 16 <= end
      modifies this`head
      ensures Fenced(old(head), head, tnext, end)
    {
      var p := tnext;
      head := head[p := FENCEPOST_HEAD];
      while p + 16 < end
        invariant tnext <= p && p + 8 < end && (p - tnext) % 8 == 0 && Fenced(old(head), head, tnext, p + 9)
        decreases end - p
      {
        p := p + 8;
        head := head[p := FENCEPOST_HEAD];
      }
      assert forall a: nat :: FencePost(tnext, p + 9, a) <==> FencePost(tnext, end, a);
    }

    /** Where add_segment puts the record of the segment that holds top. */
    method RecordPlace() returns (csp: nat, oldEnd: nat)
      requires TopPlaced(S())
      ensures csp == RecordAt(S()) && oldEnd == segs[0].base + segs[0].size
    {
      RetireFacts(S());
      assert Holds(segs[0], top);
      var k := SegmentHolding(top);
      FirstHolds(S(), k);
      hide TopPlaced, TopAndVictim, AlignOffset, Aligned;
      oldEnd := segs[k].base + segs[k].size;
      var rawsp := oldEnd - (RECORD_SIZE + 32 + 15);
      var asp := rawsp + AlignOffset(rawsp + CHUNK_OVERHEAD);
      csp := if asp < top + MIN_CHUNK_SIZE then top else asp;
    }

    /** Write the record chunk and the fence, and bin what is left of top below them. */
    method WriteRecord(csp: nat, oldEnd: nat) returns (ghost fenced: map<nat, Head>)
      requires bins.Valid() && top <= csp && csp + RECORD_SIZE + 16 <= oldEnd && top !in bins.free && top != 0
      requires (csp - top) % 8 == 0 && csp < WORD
      modifies this`head, this`foot, bins, bins.trees
      ensures bins.Valid() && RecordWritten(old(S()), S(), csp, oldEnd, fenced)
    {
      hide Bins.Bins.Valid, Fenced, Posts;
      head := head[csp := Head(RECORD_SIZE, true, true)];
      Fence(csp + RECORD_SIZE, oldEnd);
      fenced := head;
      assert Fenced(old(head)[csp := Head(RECORD_SIZE, true, true)], fenced, csp + RECORD_SIZE, oldEnd);
      if csp != top {
        var psize := csp - top;
        FencedKeeps(old(head), fenced, csp, oldEnd);
        head := head[csp := head[csp].(pinuse := false)];
        head := head[top := Head(psize, false, true)];
        foot := foot[csp := psize];
        bins.InsertChunk(top, psize);
      }
    }

    /** Turn the old top into a segment record before fenceposts, and a binned chunk if it is large enough. */
    method RetireTop()
      requires Valid() && segs != []
      modifies this`head, this`foot, this`segs, this`top, this`topsize, this`chunks, this`records, bins, bins.trees
      ensures bins.Valid() && Inv(S(), {}) && top == 0 && releaseChecks == old(releaseChecks) > 0
      ensures |segs| == |old(segs)| && segs == old(segs)[0 := old(segs[0]).(stop := segs[0].stop)]
      ensures old(top) != 0 && TopAndVictim(old(S())) && Retired(old(S()), S())
      ensures Posts(head, RecordAt(old(S())) + RECORD_SIZE, old(segs[0].base + segs[0].size))
    {
      hide Inv, Bins.Bins.Valid, TopPlaced, TopAndVictim, RecordAt, AlignOffset, Aligned, Retired, RecordWritten, Posts;
      ghost var s := S();
      TopPlace(s, {});
      RetireFacts(s);
      var csp, oldEnd := RecordPlace();
      ghost var fenced := WriteRecord(csp, oldEnd);
      CloseSegment(csp, s, fenced);
      PlacedTops(s);
    }

    /** With the record written, the first segment has no top any more. */
    method CloseSegment(csp: nat, ghost s: State, ghost fenced: map<nat, Head>)
      requires Inv(s, {}) && TopPlaced(s) && s.top != 0 && s.segs != [] && csp == RecordAt(s)
      requires csp + RECORD_SIZE + 8 < s.segs[0].base + s.segs[0].size
      requires RecordWritten(s, S(), csp, s.segs[0].base + s.segs[0].size, fenced)
      requires segs == s.segs && chunks == s.chunks && records == s.records
      modifies this`segs, this`top, this`topsize, this`chunks, this`records
      ensures Inv(S(), {}) && top == 0 && segs == s.segs[0 := s.segs[0].(stop := csp + RECORD_SIZE)]
      ensures TopAndVictim(s) && Retired(s, S()) && Posts(head, csp + RECORD_SIZE, s.segs[0].base + s.segs[0].size)
    {
      hide Inv, TopPlaced, TopAndVictim, RecordAt, AlignOffset, Aligned, Retired, RecordWritten, Posts;
      ghost var s1 := S();
      segs, top, topsize := segs[0 := segs[0].(stop := csp + RECORD_SIZE)], 0, 0;
      chunks, records := chunks[csp := Chunk(RECORD_SIZE, true)], records + {csp};
      RetiredBy(s, s1, S(), fenced);
      RetiredInv(s, S(), {});
      PlacedTops(s);
    }

    /** Add a segment for memory that does not border the one that holds top. */
    method AddSegment(tbase: nat, tsize: nat)
      requires Valid() && segs != [] && Fresh(S(), tbase, tsize) && tsize >= TOP_FOOT_SIZE + ALIGNMENT && !Adjoins(S(), tbase)
      modifies this`head, this`foot, this`segs, this`top, this`topsize, this`chunks, this`records, bins, bins.trees
      ensures Valid() && Enlarged(old(S()), S(), tbase, tsize)
      ensures Posts(head, RecordAt(old(S())) + RECORD_SIZE, old(segs[0].base + segs[0].size))
    {
      hide Inv, Bins.Bins.Valid, Paged, Retired, TopAndVictim, Enlarged, Posts, RecordAt;
      ghost var s := S();
      RecordInside(s);
      RetireTop();
      ghost var s1 := S();
      FreshKept(s, s1, tbase, tsize);
      PostsKept(s1, tbase, tsize, RecordAt(s) + RECORD_SIZE);
      InitSegment(tbase, tsize);
      NewEnlarged(s, s1, tbase, tsize);
    }

    /** Use memory in front of segment k: nb bytes are put to use, the rest joins the segment's first chunk. */
    method PrependAlloc(k: nat, tbase: nat, tsize: nat, nb: nat)
      requires Valid() && k < |segs| && Fresh(S(), tbase, tsize) && tbase + tsize == segs[k].base
      requires Aligned(nb) && MIN_CHUNK_SIZE <= nb && nb + MIN_CHUNK_SIZE <= tsize
      modifies this`head, this`foot, this`segs, this`dv, this`dvsize, this`top, this`topsize, this`chunks, bins, bins.trees
      ensures ValidWith({tbase}) && tbase in chunks && nb <= chunks[tbase].size < nb + MIN_CHUNK_SIZE
      ensures FrontUsed(old(S()), S(), k, tbase, tsize, nb)
    {
      hide Inv, Bins.Bins.Valid, Aligned, Freed, UsedFacts, Merged, Patched, TopAndVictim, Paged, Fresh, FrontUsed;
      ghost var s := S();
      ghost var s2 := Prepended(s, k, tbase, tsize, nb);
      PrependedInv(s, k, tbase, tsize, nb);
      var oldfirst := segs[k].base;
      var q, qsize := tbase + nb, tsize - nb;
      segs := segs[k := Segment(tbase, segs[k].size + tsize, segs[k].stop)];
      head := head[tbase := Head(nb, true, true)];
      chunks := Merged(s2, q);
      JoinFirst(q, qsize, oldfirst, s2);
      FreedInv(s2, S(), q, {tbase, q});
      FreedKeeps(s2, S(), q, tbase);
      FrontMeans(s, S(), k, tbase, tsize, nb);
      assert {tbase, q} - {q} == {tbase};
    }

    /** Free the new chunk q in front of oldfirst, merging it with oldfirst if that is free. */
    method JoinFirst(q: nat, qsize: nat, oldfirst: nat, ghost s: State)
      requires bins.Valid() && UsedFacts(s, q) && TopAndVictim(s) && s.head[q].pinuse && oldfirst == End(s.chunks, q) && qsize == s.chunks[q].size
      requires S() == s.(head := head, chunks := Merged(s, q)) && s.head == head[q := Head(qsize, true, true)]
      modifies this`head, this`foot, this`dv, this`dvsize, this`top, this`topsize, bins, bins.trees
      ensures bins.Valid() && Freed(s, S(), q)
    {
      hide Bins.Bins.Valid, Freed, Merged, UsedFacts, FreeFacts, TopAndVictim, AroundStart, AroundEnd;
      FirstFacts(s, q);
      if oldfirst == top {
        JoinTop(q, qsize, s);
      } else if oldfirst == dv {
        NextFree(s, q);
        dvsize := dvsize + qsize;
        dv := q;
        head := head[q := Head(dvsize, false, true)];
        foot := foot[q + dvsize := dvsize];
        assert head == s.head[q := Head(dvsize, false, true)];
        FreedBeforeFree(s, S(), q);
      } else {
        JoinOther(q, qsize, oldfirst, s);
      }
    }

    method JoinTop(q: nat, qsize: nat, ghost s: State)
      requires UsedFacts(s, q) && TopAndVictim(s) && s.head[q].pinuse && top == End(s.chunks, q) && qsize == s.chunks[q].size
      requires S() == s.(head := head, chunks := Merged(s, q)) && s.head == head[q := Head(qsize, true, true)]
      modifies this`head, this`top, this`topsize
      ensures Freed(s, S(), q)
    {
      hide Freed, Merged, UsedFacts, FreeFacts, TopAndVictim;
      FirstFacts(s, q);
      NextFree(s, q);
      topsize := topsize + qsize;
      top := q;
      head := head[q := Head(topsize, false, true)];
      assert head == s.head[q := Head(topsize, false, true)];
      FreedBeforeTop(s, S(), q);
    }

    method JoinOther(q: nat, qsize: nat, oldfirst: nat, ghost s: State)
      requires bins.Valid() && UsedFacts(s, q) && TopAndVictim(s) && s.head[q].pinuse && oldfirst == End(s.chunks, q) && qsize == s.chunks[q].size
      requires S() == s.(head := head, chunks := Merged(s, q)) && s.head == head[q := Head(qsize, true, true)]
      requires oldfirst != top && oldfirst != dv
      modifies this`head, this`foot, bins, bins.trees
      ensures bins.Valid() && Freed(s, S(), q)
    {
      hide Bins.Bins.Valid, Freed, Merged, UsedFacts, FreeFacts, TopAndVictim;
      FirstFacts(s, q);
      if !head[oldfirst].cinuse {
        NextFree(s, q);
        var nsize := head[oldfirst].size;
        bins.UnlinkChunk(oldfirst, nsize);
        SetFree(q, qsize + nsize, oldfirst + nsize);
        assert head == s.head[q := Head(qsize + nsize, false, true)];
        FreedBeforeFree(s, S(), q);
      } else {
        SetFree(q, qsize, oldfirst);
        FreedBeforeUsed(s, S(), q);
      }
    }

    /** Tag q as a free chunk of z bytes before next, and bin it. */
    method SetFree(q: nat, z: nat, next: nat)
      requires bins.Valid() && next in head && q !in bins.free && q != 0 && z % 8 == 0 && z < WORD && next == q + z
      modifies this`head, this`foot, bins, bins.trees
      ensures bins.Valid() && bins.free == old(bins.free)[q := z] && foot == old(foot)[next := z]
      ensures head == old(head)[next := old(head)[next].(pinuse := false)][q := Head(z, false, true)]
    {
      hide Bins.Bins.Valid;
      head := head[next := head[next].(pinuse := false)];
      head := head[q := Head(z, false, true)];
      foot := foot[next := z];
      bins.InsertChunk(q, z);
    }

    /** A chunk or a direct mapping at p that can hold nb bytes with its overhead and that nobody owns yet. */
    ghost predicate Obtained(p: nat, nb: nat)
      reads this, bins, bins.trees
    {
      if p in chunks then ValidWith({p}) && nb <= chunks[p].size < nb + MIN_CHUNK_SIZE
      else Valid() && p in direct && nb + MMAP_FOOT_PAD <= direct[p] < nb + 2 * PAGE_SIZE && p + CHUNK_OVERHEAD !in live
    }

    /** Map nb bytes directly; mm is what the system returned for them. */
    method MmapAlloc(nb: nat, mm: nat)
      requires Valid() && nb < WORD && DirectSize(nb) > nb && Fresh(S(), mm, DirectSize(nb))
      modifies this`head, this`direct
      ensures Obtained(mm, nb) && DirectSize(nb) > MMAP_FOOT_PAD && S() == Mapped(old(S()), mm, DirectSize(nb))
    {
      hide Inv, Bins.Bins.Valid, Fresh, DirectSize;
      ghost var s := S();
      DirectSizeExact(nb);
      var mmsize := DirectSize(nb);
      MappedInv(s, mm, mmsize, {});
      head := head[mm := Head(mmsize - MMAP_FOOT_PAD, false, false)];
      direct := direct[mm := mmsize];
      assert S() == Mapped(s, mm, mmsize);
    }

    /** The segment that ends at a, or |segs| if there is none. */
    method SegmentEnding(a: nat) returns (k: nat)
      ensures k <= |segs| && (k < |segs| ==> segs[k].base + segs[k].size == a)
      ensures k == |segs| ==> forall j: nat | j < |segs| :: segs[j].base + segs[j].size != a
    {
      k := 0;
      while k < |segs| && segs[k].base + segs[k].size != a
        invariant k <= |segs| && forall j: nat | j < k :: segs[j].base + segs[j].size != a
      {
        k := k + 1;
      }
    }

    /** The segment that starts at a, or |segs| if there is none. */
    method SegmentStarting(a: nat) returns (k: nat)
      ensures k <= |segs| && (k < |segs| ==> segs[k].base == a)
      ensures k == |segs| ==> forall j: nat | j < |segs| :: segs[j].base != a
    {
      k := 0;
      while k < |segs| && segs[k].base != a
        invariant k <= |segs| && forall j: nat | j < k :: segs[j].base != a
      {
        k := k + 1;
      }
    }

    /**
     * Get memory from the system for a chunk of nb bytes.  Parameters mm and tbase are what the system
     * would return for a direct mapping and for a segment, with 0 for failure.
     */
    method SysAlloc(nb: nat, mm: nat, tbase: nat) returns (p: nat)
      requires Valid() && MIN_CHUNK_SIZE <= nb < WORD && (SystemSize(nb) > nb ==> Aligned(nb))
      requires mm != 0 && DirectSize(nb) > nb ==> Fresh(S(), mm, DirectSize(nb))
      requires tbase != 0 && SystemSize(nb) > nb ==> Fresh(S(), tbase, SystemSize(nb))
      modifies this`head, this`foot, this`segs, this`dv, this`dvsize, this`top, this`topsize, this`chunks, this`direct, this`records
      modifies this`releaseChecks, bins, bins.trees
      ensures p != 0 ==> Obtained(p, nb) && (SystemSize(nb) > nb || DirectSize(nb) > nb)
      ensures p == 0 ==> Valid() && S() == old(S()) && (tbase == 0 || SystemSize(nb) <= nb)
      ensures SystemServes(old(S()), S(), mm, DirectSize(nb), tbase, SystemSize(nb), p, nb)
      ensures releaseChecks == ChecksLeft(old(S()), S(), old(releaseChecks))
    {
      hide Inv, Bins.Bins.Valid, DirectSize, SystemSize, Aligned, Paged;
      if nb >= MMAP_THRESHOLD && topsize != 0 && DirectSize(nb) > nb && mm != 0 {
        MmapAlloc(nb, mm);
        return mm;
      }
      var asize := SystemSize(nb);
      if asize <= nb || tbase == 0 {
        return 0;
      }
      SystemSizeExact(nb);
      p := UseSegment(nb, tbase, asize);
    }

    /** Put a new mapping of asize bytes at tbase to use and take nb bytes from it. */
    method UseSegment(nb: nat, tbase: nat, asize: nat) returns (p: nat)
      requires Valid() && Aligned(nb) && MIN_CHUNK_SIZE <= nb && nb + SYS_ALLOC_PADDING <= asize && Fresh(S(), tbase, asize)
      modifies this`head, this`foot, this`segs, this`dv, this`dvsize, this`top, this`topsize, this`chunks, this`records
      modifies this`releaseChecks, bins, bins.trees
      ensures p != 0 && ValidWith({p}) && p in chunks && nb <= chunks[p].size < nb + MIN_CHUNK_SIZE
      ensures SegmentServes(old(S()), S(), tbase, asize, p, nb)
      ensures releaseChecks == ChecksLeft(old(S()), S(), old(releaseChecks))
    {
      hide Inv, Bins.Bins.Valid, Aligned, Paged, Enlarged, FrontUsed, Handed, Fresh;
      ghost var s := S();
      FreshPositive(s, tbase, asize);
      var front := PlaceSegment(nb, tbase, asize);
      if front {
        return tbase;
      }
      EnlargedTop(s, S(), tbase, asize);
      p := SplitTop(nb);
      OrphanPositive(S(), p);
    }

    /** Make a new mapping the front of a segment, which takes nb bytes from it, or else part of top. */
    method PlaceSegment(nb: nat, tbase: nat, asize: nat) returns (front: bool)
      requires Valid() && Aligned(nb) && MIN_CHUNK_SIZE <= nb && nb + SYS_ALLOC_PADDING <= asize && Fresh(S(), tbase, asize)
      modifies this`head, this`foot, this`segs, this`dv, this`dvsize, this`top, this`topsize, this`chunks, this`records
      modifies this`releaseChecks, bins, bins.trees
      ensures front <==> old(top) != 0 && !Adjoins(old(S()), tbase) && exists k: nat :: Precedes(old(S()), tbase, asize, k)
      ensures front ==> ValidWith({tbase}) && tbase in chunks && nb <= chunks[tbase].size < nb + MIN_CHUNK_SIZE
      ensures front ==> exists k: nat :: Precedes(old(S()), tbase, asize, k) && FrontUsed(old(S()), S(), k, tbase, asize, nb)
      ensures !front ==> Valid() && Enlarged(old(S()), S(), tbase, asize)
      ensures releaseChecks == (if old(segs) == [] then MAX_RELEASE_CHECK_RATE else old(releaseChecks)) && segs != []
    {
      hide Inv, Bins.Bins.Valid, Aligned, Paged, Enlarged, FrontUsed, Fresh;
      ghost var s := S();
      front := false;
      if top == 0 {
        releaseChecks := MAX_RELEASE_CHECK_RATE;
        InitSegment(tbase, asize);
        FirstEnlarged(s, tbase, asize);
      } else {
        TopHasSegment(s);
        var k := SegmentEnding(tbase);
        if k < |segs| && Holds(segs[k], top) {
          FirstHoldsTop(s, k);
          AppendToTop(asize);
          UpEnlarged(s, asize);
        } else {
          NotAdjoining(s, tbase, k);
          k := SegmentStarting(tbase + asize);
          if k < |segs| {
            assert Precedes(s, tbase, asize, k);
            PrependAlloc(k, tbase, asize, nb);
            FrontSegments(s, S(), k, tbase, asize, nb);
            front := true;
          } else {
            assert forall j: nat :: !Precedes(s, tbase, asize, j);
            AddSegment(tbase, asize);
            EnlargedTop(s, S(), tbase, asize);
          }
        }
      }
    }

    // ----- malloc

    /** Serve a small request from the bins: a remainderless fit first, else the smallest chunk if dv is too small. */
    method TakeSmall(nb: nat) returns (p: nat)
      requires Valid() && Aligned(nb) && MIN_CHUNK_SIZE <= nb && Bins.IsSmall(nb)
      modifies this`head, this`foot, this`dv, this`dvsize, this`chunks, bins, bins.trees
      ensures p != 0 ==> ValidWith({p}) && p in chunks && nb <= chunks[p].size < nb + MIN_CHUNK_SIZE
      ensures p != 0 ==> Chosen(old(S()), p, nb) && Handed(old(S()), S(), p, nb)
      ensures p == 0 ==> Valid() && S() == old(S()) && (VictimServes(S(), nb) || (NoneBinned(S(), nb) && dvsize < nb))
    {
      hide Inv, Bins.Bins.Valid, Aligned, Handed;
      var idx := nb / 8;
      assert nb == 8 * idx && idx + 1 < Bins.NSMALLBINS by { SmallIndex(nb); }
      p := 0;
      if idx in bins.smallmap || idx + 1 in bins.smallmap {
        var i := if idx in bins.smallmap then idx else idx + 1;
        bins.FirstFrom(idx, i);
        p := UseSmall(i, nb);
        OrphanPositive(S(), p);
      } else if nb > dvsize {
        p := TakeSplit(nb, idx);
      } else {
        bins.Unmarked(idx);
        bins.Unmarked(idx + 1);
      }
    }

    /** Serve a small request from a smallest chunk of the bins, with a remainder. */
    method TakeSplit(nb: nat, idx: nat) returns (p: nat)
      requires Valid() && Aligned(nb) && MIN_CHUNK_SIZE <= nb && Bins.IsSmall(nb) && nb == 8 * idx && idx !in bins.smallmap && dvsize < nb
      modifies this`head, this`foot, this`dv, this`dvsize, this`chunks, bins, bins.trees
      ensures p != 0 ==> ValidWith({p}) && p in chunks && nb <= chunks[p].size < nb + MIN_CHUNK_SIZE
      ensures p != 0 ==> Chosen(old(S()), p, nb) && Handed(old(S()), S(), p, nb)
      ensures p == 0 ==> Valid() && S() == old(S()) && NoneBinned(S(), nb)
    {
      hide Inv, Bins.Bins.Valid, Aligned, Handed;
      var leftbits := set j | j in bins.smallmap && j > idx;
      p := 0;
      if leftbits != {} {
        var i := TB.LeastBit(leftbits);
        LeastMarked(bins, leftbits, idx, i);
        p := bins.FirstSmallChunk(i);
        CarveSmall(p, 8 * i, nb);
        OrphanPositive(S(), p);
      } else if bins.trees.treemap != {} {
        assert forall j | j in bins.smallmap :: j in leftbits || j <= idx;
        bins.OnlyLargeFrom(idx);
        var rsize;
        p, rsize := bins.SmallestLarge(nb);
        CarveSmall(p, nb + rsize, nb);
        OrphanPositive(S(), p);
      } else {
        assert forall i | i in bins.smallmap :: i < idx by {
          forall i | i in bins.smallmap ensures i < idx { assert i !in leftbits; }
        }
        bins.NothingFrom(idx);
      }
    }

    /** Use the first chunk of small bin i as it is. */
    method UseSmall(i: nat, ghost nb: nat) returns (p: nat)
      requires Valid() && i in bins.smallmap && nb <= 8 * i < nb + MIN_CHUNK_SIZE
      modifies this`head, this`chunks, bins
      ensures ValidWith({p}) && p in chunks && chunks[p].size == 8 * i && p in old(bins.free) && old(bins.free)[p] == 8 * i
      ensures Handed(old(S()), S(), p, nb)
    {
      hide Inv, Bins.Bins.Valid, TakenWhole, FreeFacts, Handed;
      ghost var s := S();
      p := bins.UnlinkFirstSmallChunk(i);
      BinnedFree(s, p, {});
      HandWhole(p, 8 * i, nb, s);
    }

    /** Serve a large request by best fit, unless the designated victim fits better. */
    method TakeLarge(nb: nat) returns (p: nat)
      requires Valid() && Aligned(nb) && MIN_CHUNK_SIZE <= nb < WORD && !Bins.IsSmall(nb)
      modifies this`head, this`foot, this`dv, this`dvsize, this`chunks, bins, bins.trees
      ensures p != 0 ==> ValidWith({p}) && p in chunks && nb <= chunks[p].size < nb + MIN_CHUNK_SIZE
      ensures p != 0 ==> Chosen(old(S()), p, nb) && Handed(old(S()), S(), p, nb)
      ensures p == 0 ==> Valid() && S() == old(S()) && (VictimServes(S(), nb) || (NoneBinned(S(), nb) && dvsize < nb))
    {
      hide Inv, Bins.Bins.Valid, Aligned, Handed;
      p := 0;
      ghost var s := S();
      if bins.trees.treemap != {} {
        var v, rsize := bins.SmallestFit(nb);
        SizesBelowWord(s);
        if v != 0 && rsize < Sub64(dvsize, nb) {
          CarveLarge(v, nb + rsize, nb);
          OrphanPositive(S(), v);
          p := v;
        }
      } else {
        SmallBins(bins);
        bins.NothingFrom(Bins.NSMALLBINS);
      }
    }

    /** The chunk or mapping of a payload wastes little on its request. */
    ghost predicate Snug(mem: nat, nb: nat)
      reads this
    {
      && mem >= CHUNK_OVERHEAD
      && var p := mem - CHUNK_OVERHEAD;
         if p in chunks then nb <= chunks[p].size < nb + MIN_CHUNK_SIZE
         else p in direct && nb + MMAP_FOOT_PAD <= direct[p] < nb + 2 * PAGE_SIZE
    }

    /** Hand out what was obtained at p as a payload of the given number of bytes. */
    method HandOut(p: nat, bytes: nat, ghost nb: nat) returns (mem: nat)
      requires Obtained(p, nb) && bytes + CHUNK_OVERHEAD <= nb
      modifies this`live
      ensures Valid() && mem == p + CHUNK_OVERHEAD && Aligned(mem) && Snug(mem, nb)
      ensures mem !in old(live) && live == old(live)[mem := bytes]
    {
      hide Inv, Bins.Bins.Valid, Aligned;
      ghost var s := S();
      mem := p + CHUNK_OVERHEAD;
      live := live[mem := bytes];
      if p !in s.chunks {
        DirectAligned(s, p);
        AdoptDirect(s, p, bytes);
      } else {
        OrphanChunk(s, p, {p});
        PayloadAligned(s, p);
        AdoptInv(s, p, bytes, {p});
        assert {p} - {p} == {};
      }
    }

    /** Find a free chunk for a request: in the bins, the designated victim, or top. */
    method TakeFree(bytes: nat, nb: nat) returns (p: nat)
      requires Valid() && bytes < WORD && nb == ChunkSize(bytes)
      modifies this`head, this`foot, this`dv, this`dvsize, this`top, this`topsize, this`chunks, bins, bins.trees
      ensures p != 0 ==> ValidWith({p}) && p in chunks && nb <= chunks[p].size < nb + MIN_CHUNK_SIZE && bytes < MAX_REQUEST
      ensures p != 0 ==> Chosen(old(S()), p, nb) && Handed(old(S()), S(), p, nb)
      ensures p == 0 <==> old(NoneFree(S(), nb))
      ensures p == 0 ==> Valid() && S() == old(S())
    {
      hide Inv, Bins.Bins.Valid, Aligned, ChunkSize, Handed;
      ChunkSizeFacts(bytes);
      SizesBelowWord(S());
      p := 0;
      if bytes <= MAX_SMALL_REQUEST {
        p := TakeSmall(nb);
      } else if bytes < MAX_REQUEST {
        p := TakeLarge(nb);
      } else {
        AllBelow(S());
      }
      if p == 0 {
        if nb <= dvsize {
          p := UseVictim(nb);
          OrphanPositive(S(), p);
        } else if nb < topsize {
          p := SplitTop(nb);
          OrphanPositive(S(), p);
        }
      }
    }

    /**
     * malloc.  The system returns mm for a direct mapping and tbase for a segment, 0 meaning failure.
     * A failed call changes nothing and happens only if the system fails or the size cannot be
     * represented.  A call turns to the system exactly if no free chunk is large enough; the contract says
     * which chunk serves the request and what becomes of the memory that is left over.
     */
    method Malloc(bytes: nat, mm: nat, tbase: nat) returns (mem: nat)
      requires Valid() && bytes < WORD
      requires SystemReturns(S(), bytes, mm, tbase)
      modifies this, bins, bins.trees
      ensures Valid() && data == old(data)
      ensures mem != 0 ==> mem !in old(live) && live == old(live)[mem := bytes] && Aligned(mem) && Snug(mem, ChunkSize(bytes))
      ensures mem == 0 ==> S() == old(S()) && (tbase == 0 || ChunkSize(bytes) + 96 + 65535 >= WORD)
      ensures MallocAnswer(old(S()), S().(live := old(live)), bytes, mm, tbase, mem)
      ensures releaseChecks == ChecksLeft(old(S()), S(), old(releaseChecks))
    {
      hide Inv, Bins.Bins.Valid, Aligned, ChunkSize, DirectSize, SystemSize, Fresh, Handed, SystemServes, Chosen;
      ghost var s := S();
      ChunkSizeFacts(bytes);
      var nb := ChunkSize(bytes);
      var p := TakeFree(bytes, nb);
      if p == 0 {
        SystemSizeExact(nb);
        DirectSizeExact(nb);
        p := SysAlloc(nb, mm, tbase);
      }
      if p == 0 {
        return 0;
      }
      mem := HandOut(p, bytes, nb);
    }

    // ----- free

    /**
     * Offer the segments that are one free chunk back to the system.  The system never takes them, so
     * each is put back; the designated victim becomes an ordinary binned chunk when it is such a chunk.
     */
    method ReleaseUnusedSegments()
      requires bins.Valid() && Inv(S(), {}) && (segs != [] ==> top != 0)
      modifies this`dv, this`dvsize, this`releaseChecks, bins, bins.trees
      ensures Valid() && S() == Offered(old(S()))
      ensures releaseChecks == if |segs| > MAX_RELEASE_CHECK_RATE + 1 then |segs| - 1 else MAX_RELEASE_CHECK_RATE
    {
      hide Inv, Bins.Bins.Valid, VictimBinned;
      ghost var s := S();
      var k, nsegs := 1, 0;
      while k < |segs|
        invariant 1 <= k && nsegs == k - 1 && (k <= |segs| || k == 1)
        invariant bins.Valid() && Inv(S(), {}) && S() == OfferedBefore(s, k)
      {
        var base, size := segs[k].base, segs[k].size;
        BaseFacts(S(), k);
        OfferStep(s, k, S());
        var psize := head[base].size;
        nsegs := nsegs + 1;
        if !head[base].cinuse && base + psize >= base + size - TOP_FOOT_SIZE {
          ReofferSegment(k, base, psize);
        }
        k := k + 1;
      }
      releaseChecks := if nsegs > MAX_RELEASE_CHECK_RATE then nsegs else MAX_RELEASE_CHECK_RATE;
    }

    /** Take the free chunk that fills segment k out of its place and, as the system refuses it, bin it. */
    method ReofferSegment(k: nat, base: nat, psize: nat)
      requires bins.Valid() && Inv(S(), {}) && 0 < k < |segs| && base == segs[k].base && base in head && psize == head[base].size
      requires !head[base].cinuse && psize + TOP_FOOT_SIZE >= segs[k].size
      modifies this`dv, this`dvsize, bins, bins.trees
      ensures bins.Valid() && Inv(S(), {}) && S() == if old(dv) == base then VictimBinned(old(S())) else old(S())
    {
      hide Inv, Bins.Bins.Valid, Aligned;
      ghost var s := S();
      BaseFacts(s, k);
      NotTop(s, k);
      AlignedEight(psize);
      VictimBinnedInv(s, {});
      if base == dv {
        dv, dvsize := 0, 0;
      } else {
        bins.UnlinkChunk(base, psize);
      }
      bins.InsertChunk(base, psize);
      assert base != s.dv ==> (s.free - {base})[base := psize] == s.free;
    }

    /** free.  The payload is gone; a direct mapping is leaked because the system cannot unmap it. */
    method Free(mem: nat)
      requires Valid() && (mem == 0 || mem in live)
      modifies this`head, this`foot, this`dv, this`dvsize, this`top, this`topsize, this`chunks, this`live, this`releaseChecks
      modifies bins, bins.trees
      ensures Valid() && live == old(live) - {mem}
      ensures forall a | a in chunks && chunks[a].inuse :: a in old(chunks) && chunks[a] == old(chunks)[a]
      ensures FreeAnswer(old(S()), old(releaseChecks), S(), releaseChecks, mem)
    {
      hide Inv, Bins.Bins.Valid, Freed, UsedFacts, GivenBack, VictimBinned;
      ghost var s := S();
      NullNotLive(s);
      if mem != 0 {
        LiveFacts(s, mem);
        DropInv(s, mem, {});
        var p := mem - CHUNK_OVERHEAD;
        live := live - {mem};
        if head[p].pinuse || head[p].cinuse {
          assert {} + {p} == {p};
          ChunkHasSegment(s, p);
          FreeChunkAt(p);
        }
      }
    }

    /** Give back chunk p, and offer segments to the system now and then. */
    method FreeChunkAt(p: nat)
      requires ValidWith({p}) && segs != []
      modifies this`head, this`foot, this`dv, this`dvsize, this`top, this`topsize, this`chunks, this`releaseChecks, bins, bins.trees
      ensures Valid()
      ensures forall a | a in chunks && chunks[a].inuse :: a in old(chunks) && chunks[a] == old(chunks)[a]
      ensures exists t, lo :: GivenBack(old(S()), t, p, lo) && Counted(t, lo, old(releaseChecks), S(), releaseChecks)
    {
      hide Inv, Bins.Bins.Valid, Freed, UsedFacts, GivenBack, VictimBinned;
      ghost var s := S();
      assert {p} - {p} == {};
      var binned := DisposeChunk(p, {p});
      ghost var t, lo := S(), AroundStart(s, p);
      FreedOthers(s, t, p);
      FreedMeans(s, t, p, {p});
      FreedPositive(t, lo);
      if binned != 0 && !Bins.IsSmall(binned) {
        releaseChecks := releaseChecks - 1;
        if releaseChecks == 0 {
          ReleaseUnusedSegments();
        }
      }
      OfferedKeeps(t);
    }

    // ----- realloc

    /**
     * Cut the bytes from p to e into p of nb bytes and a rest that is freed.  If e lies beyond the end of
     * p, the free chunk after p has already left its bin.
     */
    method CutAndDispose(p: nat, nb: nat, e: nat, ghost s: State)
      requires bins.Valid() && Inv(s, {p}) && Reach(s, p, e) && S() == s.(free := Unbinned(s, p, e)) && (segs != [] ==> top != 0 && releaseChecks > 0)
      requires Aligned(nb) && MIN_CHUNK_SIZE <= nb && p + nb + MIN_CHUNK_SIZE <= e
      requires e != End(s.chunks, p) ==> End(s.chunks, p) != s.dv && End(s.chunks, p) != s.top && s.chunks[p].size < nb
      modifies this`head, this`foot, this`dv, this`dvsize, this`top, this`topsize, this`chunks, bins, bins.trees
      ensures ValidWith({p}) && p in chunks && chunks[p].size == nb && Resized(s, S(), p, nb)
    {
      hide Inv, Bins.Bins.Valid, Aligned, Freed, UsedFacts, Patched, Resized;
      ReachEnds(s, p, e);
      var r := p + nb;
      head := head[p := Head(nb, true, head[p].pinuse)];
      head := head[r := Head(e - r, true, true)];
      head := head[e := head[e].(pinuse := true)];
      chunks := Patched(chunks, p, e, Two(p, r, e, true, true));
      RecutInv(s, S(), p, nb, e, true, {p});
      assert {p} + {r} == {p, r} && {p, r} - {r} == {p};
      ghost var s1 := S();
      var binned := DisposeChunk(r, {p, r});
      FreedKeeps(s1, S(), r, p);
      ResizedDisposed(s, s1, S(), p, nb, e);
    }

    /** Extend p over the whole of the free chunk after it, up to e. */
    method Widen(p: nat, e: nat, ghost s: State)
      requires Inv(s, {p}) && Reach(s, p, e) && s.top !in Reached(s, p, e)
      requires S() == s.(free := Unbinned(s, p, e), dv := if s.dv in Reached(s, p, e) then 0 else s.dv,
                         dvsize := if s.dv in Reached(s, p, e) then 0 else s.dvsize)
      modifies this`head, this`chunks
      ensures Inv(S(), {p}) && p in chunks && chunks[p] == Chunk(e - p, true) && Widened(s, S(), p, e)
    {
      hide Inv, UsedFacts, Patched;
      ReachEnds(s, p, e);
      head := head[p := Head(e - p, true, head[p].pinuse)];
      head := head[e := head[e].(pinuse := true)];
      chunks := Patched(chunks, p, e, One(p, e, true));
      WidenedInv(s, S(), p, e, {p});
    }

    /** Extend p into top. */
    method ExtendIntoTop(p: nat, nb: nat)
      requires ValidWith({p}) && UsedFacts(S(), p) && End(chunks, p) == top && Aligned(nb)
      requires chunks[p].size < nb < chunks[p].size + topsize && MIN_CHUNK_SIZE <= nb
      modifies this`head, this`top, this`topsize, this`chunks
      ensures ValidWith({p}) && p in chunks && chunks[p].size == nb && Resized(old(S()), S(), p, nb)
    {
      hide Inv, Bins.Bins.Valid, UsedFacts, Patched, Aligned, Resized;
      ghost var s := S();
      var e := top + topsize;
      NextReach(s, p);
      ReachEnds(s, p, e);
      var newtop := p + nb;
      head := head[p := Head(nb, true, head[p].pinuse)];
      head := head[newtop := Head(e - newtop, false, true)];
      top := newtop;
      topsize := e - newtop;
      chunks := Patched(chunks, p, e, Two(p, newtop, e, true, false));
      assert head == head[e := s.head[e].(pinuse := false)];
      RecutInv(s, S(), p, nb, e, false, {p});
      ResizedCut(s, S(), p, nb, e);
    }

    /** Give p the first part of the designated victim, which ends at e. */
    method ShareVictim(p: nat, nb: nat, e: nat)
      requires Inv(S(), {p}) && Reach(S(), p, e) && End(chunks, p) == dv && dv != top && e == dv + dvsize && Aligned(nb)
      requires MIN_CHUNK_SIZE <= nb && p + nb + MIN_CHUNK_SIZE <= e && dv !in bins.free && dv != e && chunks[p].size < nb
      modifies this`head, this`foot, this`dv, this`dvsize, this`chunks
      ensures Inv(S(), {p}) && p in chunks && chunks[p].size == nb && Resized(old(S()), S(), p, nb)
    {
      hide Inv, UsedFacts, Patched, Aligned, Two, Resized;
      ghost var s := S();
      ReachEnds(s, p, e);
      var r := p + nb;
      head := head[p := Head(nb, true, head[p].pinuse)];
      head := head[r := Head(e - r, false, true)];
      foot := foot[e := e - r];
      head := head[e := head[e].(pinuse := false)];
      dv, dvsize := r, e - r;
      chunks := Patched(chunks, p, e, Two(p, r, e, true, false));
      assert s.free - {s.dv} == s.free;
      RecutInv(s, S(), p, nb, e, false, {p});
      ResizedCut(s, S(), p, nb, e);
    }

    /** Extend p into the designated victim. */
    method ExtendIntoVictim(p: nat, nb: nat)
      requires ValidWith({p}) && UsedFacts(S(), p) && End(chunks, p) == dv && dv != top && Aligned(nb)
      requires chunks[p].size < nb <= chunks[p].size + dvsize && MIN_CHUNK_SIZE <= nb
      modifies this`head, this`foot, this`dv, this`dvsize, this`chunks
      ensures ValidWith({p}) && p in chunks && nb <= chunks[p].size < nb + MIN_CHUNK_SIZE && Resized(old(S()), S(), p, nb)
    {
      hide Inv, Bins.Bins.Valid, UsedFacts, Patched, Aligned, Resized, Widened;
      ghost var s := S();
      NextReach(s, p);
      var e := dv + dvsize;
      ReachEnds(s, p, e);
      var dsize := e - (p + nb);
      if dsize >= MIN_CHUNK_SIZE {
        ShareVictim(p, nb, e);
      } else {
        dvsize := 0;
        dv := 0;
        Widen(p, e, s);
        ResizedWide(s, S(), p, nb, e);
      }
    }

    /** Extend p into the binned chunk after it. */
    method ExtendIntoNext(p: nat, nb: nat)
      requires ValidWith({p}) && UsedFacts(S(), p) && !chunks[End(chunks, p)].inuse && End(chunks, p) != dv && End(chunks, p) != top
      requires Aligned(nb) && MIN_CHUNK_SIZE <= nb
      requires chunks[p].size < nb <= chunks[p].size + chunks[End(chunks, p)].size
      modifies this`head, this`foot, this`dv, this`dvsize, this`top, this`topsize, this`chunks, bins, bins.trees
      ensures ValidWith({p}) && p in chunks && nb <= chunks[p].size < nb + MIN_CHUNK_SIZE && Resized(old(S()), S(), p, nb)
    {
      hide Inv, Bins.Bins.Valid, UsedFacts, Patched, Aligned, Resized, Widened;
      ghost var s := S();
      NextReach(s, p);
      var next := p + head[p].size;
      var nextsize := head[next].size;
      var e := next + nextsize;
      ReachEnds(s, p, e);
      bins.UnlinkChunk(next, nextsize);
      var rsize := e - (p + nb);
      if rsize < MIN_CHUNK_SIZE {
        Widen(p, e, s);
        ResizedWide(s, S(), p, nb, e);
      } else {
        CutAndDispose(p, nb, e, s);
      }
    }

    /** Resize the chunk at p in place if that is possible; otherwise nothing changes. */
    method TryRealloc(p: nat, nb: nat) returns (ok: bool)
      requires ValidWith({p}) && Aligned(nb) && MIN_CHUNK_SIZE <= nb
      modifies this`head, this`foot, this`dv, this`dvsize, this`top, this`topsize, this`chunks, bins, bins.trees
      ensures ValidWith({p}) && p in chunks
      ensures ok <==> FitsInPlace(old(S()), p, nb)
      ensures ok ==> nb <= chunks[p].size < nb + MIN_CHUNK_SIZE && Resized(old(S()), S(), p, nb)
      ensures !ok ==> S() == old(S())
    {
      hide Inv, Bins.Bins.Valid, UsedFacts, Aligned, Resized;
      ghost var s := S();
      OrphanChunk(s, p, {p});
      UsedSizes(s, p);
      NextReach(s, p);
      var oldsize := head[p].size;
      var next := p + oldsize;
      ok := false;
      if oldsize >= nb {
        ok := true;
        if oldsize - nb >= MIN_CHUNK_SIZE {
          CutAndDispose(p, nb, next, s);
        } else {
          Unresized(s, p, nb);
        }
      } else if next == top {
        if oldsize + topsize > nb {
          ExtendIntoTop(p, nb);
          ok := true;
        }
      } else if next == dv {
        if oldsize + dvsize >= nb {
          ExtendIntoVictim(p, nb);
          ok := true;
        }
      } else if !head[next].cinuse {
        if oldsize + head[next].size >= nb {
          ExtendIntoNext(p, nb);
          ok := true;
        }
      }
    }

    /** Give the payload mem its new size in place, if its chunk or mapping allows it. */
    method ResizeInPlace(mem: nat, bytes: nat) returns (ok: bool)
      requires Valid() && mem in live && bytes < MAX_REQUEST
      modifies this`head, this`foot, this`dv, this`dvsize, this`top, this`topsize, this`chunks, this`live, bins, bins.trees
      ensures Valid()
      ensures ok ==> live == old(live)[mem := bytes]
      ensures ok && mem - CHUNK_OVERHEAD in chunks ==> Snug(mem, ChunkSize(bytes))
      ensures ok <==> PayloadFits(old(S()), mem, ChunkSize(bytes))
      ensures ok ==> PayloadResized(old(S()), S().(live := old(live)), mem, ChunkSize(bytes))
      ensures !ok ==> S() == old(S())
    {
      hide Inv, Bins.Bins.Valid, Aligned, ChunkSize, Resized, FitsInPlace;
      ghost var s := S();
      LiveFacts(s, mem);
      var p := mem - CHUNK_OVERHEAD;
      if !head[p].pinuse && !head[p].cinuse {
        ok := ResizeDirect(mem, bytes);
      } else {
        ok := ResizeChunk(mem, bytes);
      }
    }

    method ResizeDirect(mem: nat, bytes: nat) returns (ok: bool)
      requires Valid() && mem in live && bytes < MAX_REQUEST
      requires mem >= CHUNK_OVERHEAD && mem - CHUNK_OVERHEAD !in chunks && mem - CHUNK_OVERHEAD in head
      modifies this`live
      ensures Valid() && live == if ok then old(live)[mem := bytes] else old(live)
      ensures ok <==> PayloadFits(old(S()), mem, ChunkSize(bytes))
    {
      hide Inv, Bins.Bins.Valid, Aligned, ChunkSize;
      ghost var s := S();
      ChunkSizeFacts(bytes);
      LiveFacts(s, mem);
      DropInv(s, mem, {});
      var nb := ChunkSize(bytes);
      var p := mem - CHUNK_OVERHEAD;
      var oldsize := head[p].size;
      ok := !Bins.IsSmall(nb) && oldsize >= nb + 8 && oldsize - nb <= 2 * GRANULARITY;
      if ok {
        AdoptDirect(s.(live := s.live - {mem}), p, bytes);
        live := live[mem := bytes];
        assert (s.live - {mem})[mem := bytes] == live;
      }
    }

    method ResizeChunk(mem: nat, bytes: nat) returns (ok: bool)
      requires Valid() && mem in live && bytes < MAX_REQUEST && mem >= CHUNK_OVERHEAD && mem - CHUNK_OVERHEAD in chunks
      modifies this`head, this`foot, this`dv, this`dvsize, this`top, this`topsize, this`chunks, this`live, bins, bins.trees
      ensures Valid() && mem - CHUNK_OVERHEAD in chunks
      ensures ok ==> live == old(live)[mem := bytes] && Snug(mem, ChunkSize(bytes))
      ensures ok <==> FitsInPlace(old(S()), mem - CHUNK_OVERHEAD, ChunkSize(bytes))
      ensures ok ==> Resized(old(S()), S().(live := old(live)), mem - CHUNK_OVERHEAD, ChunkSize(bytes))
      ensures !ok ==> S() == old(S())
    {
      hide Inv, Bins.Bins.Valid, Aligned, ChunkSize, Resized, FitsInPlace;
      ghost var s := S();
      ChunkSizeFacts(bytes);
      LiveFacts(s, mem);
      DropInv(s, mem, {});
      var nb := ChunkSize(bytes);
      var p := mem - CHUNK_OVERHEAD;
      live := live - {mem};
      assert {} + {p} == {p};
      FitsWithout(s, mem, p, nb);
      ok := TryRealloc(p, nb);
      ghost var n := if ok then bytes else s.live[mem];
      if ok { ResizedLive(s, S(), mem, p, nb); }
      AdoptInv(S(), p, n, {p});
      assert {p} - {p} == {} && (s.live - {mem})[mem := n] == s.live[mem := n];
      assert s.live[mem := s.live[mem]] == s.live;
      live := live[mem := n];
    }

    /** memcpy between ranges that do not overlap. */
    method CopyPayload(to: nat, from: nat, n: nat)
      requires to + n <= from || from + n <= to
      modifies this`data
      ensures forall a: nat :: At(a) == if to <= a < to + n then old(At(a - to + from)) else old(At(a))
    {
      var i := 0;
      while i < n
        invariant i <= n && forall a: nat :: At(a) == if to <= a < to + i then old(At(a - to + from)) else old(At(a))
      {
        ghost var d := data;
        assert At(from + i) == old(At(from + i));
        data := data[to + i := At(from + i)];
        forall a: nat ensures At(a) == if a == to + i then Byte(d, from + i) else Byte(d, a) {}
        i := i + 1;
      }
    }

    /** Move the contents of one live payload to another and give up the first. */
    method MovePayload(r: nat, mem: nat, bytes: nat)
      requires Valid() && mem in live && r in live && r != mem && live[r] == bytes
      modifies this`head, this`foot, this`dv, this`dvsize, this`top, this`topsize, this`chunks, this`live, this`releaseChecks
      modifies this`data, bins, bins.trees
      ensures Valid() && live == old(live) - {mem} && FreeAnswer(old(S()), old(releaseChecks), S(), releaseChecks, mem)
      ensures var p := r - CHUNK_OVERHEAD; p in chunks ==> p in old(chunks) && chunks[p] == old(chunks)[p]
      ensures forall a: nat | r <= a < r + bytes && a - r < old(live)[mem] :: At(a) == old(At(a - r + mem))
      ensures forall m, a: nat {:trigger m in old(live), At(a)} | m in old(live) && m != r && m <= a < m + old(live)[m] ::
        At(a) == old(At(a))
    {
      hide Inv, Bins.Bins.Valid, Aligned, Usable, FreeAnswer;
      ghost var s := S();
      UsableApart(s, mem, r);
      var oc := head[mem - CHUNK_OVERHEAD].size - CHUNK_OVERHEAD;
      CopyPayload(r, mem, if oc < bytes then oc else bytes);
      forall m | m in s.live && m != r ensures m + s.live[m] <= r || r + bytes <= m { UsableApart(s, m, r); }
      Free(mem);
      LiveFacts(S(), r);
    }

    /** realloc to a new address. */
    method ReallocMoving(mem: nat, bytes: nat, mm: nat, tbase: nat) returns (r: nat)
      requires Valid() && mem in live && bytes < WORD && SystemReturns(S(), bytes, mm, tbase)
      modifies this, bins, bins.trees
      ensures Valid()
      ensures r != 0 ==> live == (old(live) - {mem})[r := bytes] && r !in old(live)
      ensures r - CHUNK_OVERHEAD in chunks ==> Snug(r, ChunkSize(bytes))
      ensures r == 0 ==> S() == old(S()) && data == old(data) && (tbase == 0 || ChunkSize(bytes) + 96 + 65535 >= WORD)
      ensures r == 0 ==> MallocAnswer(old(S()), old(S()), bytes, mm, tbase, 0)
      ensures r != 0 ==> exists t :: MoveAnswer(old(S()), old(releaseChecks), t, S(), releaseChecks, mem, bytes, mm, tbase, r)
      ensures r != 0 ==> forall a: nat | r <= a < r + bytes && a - r < old(live)[mem] :: At(a) == old(At(a - r + mem))
      ensures forall m, a: nat {:trigger m in old(live), At(a)} | m in old(live) && m != mem && m <= a < m + old(live)[m] ::
        At(a) == old(At(a))
    {
      hide Inv, Bins.Bins.Valid, Aligned, ChunkSize, DirectSize, SystemSize, Fresh, MallocAnswer, FreeAnswer;
      r := Malloc(bytes, mm, tbase);
      ghost var t := S().(live := old(live));
      assert t.(live := live) == S();
      if r != 0 {
        assert old(live)[r := bytes] - {mem} == (old(live) - {mem})[r := bytes];
        ghost var mid := live;
        MovePayload(r, mem, bytes);
        assert MoveAnswer(old(S()), old(releaseChecks), t, S(), releaseChecks, mem, bytes, mm, tbase, r);
        forall m, a: nat | m in old(live) && m != mem && m <= a < m + old(live)[m] ensures At(a) == old(At(a)) {
          assert m in mid && mid[m] == old(live)[m];
        }
      }
    }

    /**
     * realloc.  On success the payload lives at r with its new size and its contents, every other payload is
     * untouched, and r is the old address or one that was not in use; on failure nothing changes.  The
     * payload stays where it is exactly if its chunk, or its chunk with the free chunk behind it, has room.
     */
    method Realloc(mem: nat, bytes: nat, mm: nat, tbase: nat) returns (r: nat)
      requires Valid() && (mem == 0 || mem in live) && bytes < WORD && SystemReturns(S(), bytes, mm, tbase)
      modifies this, bins, bins.trees
      ensures Valid()
      ensures r != 0 ==> live == (old(live) - {mem})[r := bytes] && (r == mem || r !in old(live))
      ensures r - CHUNK_OVERHEAD in chunks ==> Snug(r, ChunkSize(bytes))
      ensures r == 0 ==> S() == old(S()) && data == old(data) && (tbase == 0 || ChunkSize(bytes) + 96 + 65535 >= WORD)
      ensures ReallocAnswer(old(S()), old(releaseChecks), S(), releaseChecks, mem, bytes, mm, tbase, r)
      ensures r != 0 && mem != 0 ==>
        forall a: nat | r <= a < r + bytes && a - r < old(live)[mem] :: At(a) == old(At(a - r + mem))
      ensures forall m, a: nat {:trigger m in old(live), At(a)} | m in old(live) && m != mem && m <= a < m + old(live)[m] ::
        At(a) == old(At(a))
    {
      hide Inv, Bins.Bins.Valid, Aligned, ChunkSize, DirectSize, SystemSize, Fresh, MallocAnswer, FreeAnswer, PayloadFits, PayloadResized;
      NullNotLive(S());
      ChunkSizeFacts(bytes);
      if mem == 0 {
        assert live - {0} == live;
        r := Malloc(bytes, mm, tbase);
      } else if bytes >= MAX_REQUEST {
        r := 0;
      } else {
        assert (live - {mem})[mem := bytes] == live[mem := bytes];
        var ok := ResizeInPlace(mem, bytes);
        if ok {
          r := mem;
        } else {
          r := ReallocMoving(mem, bytes, mm, tbase);
        }
      }
    }
  }

  /**
   * The answer of malloc: a free chunk serves the request if one can, else the system; 0 if neither does.
   * State s' is the one before the payload counts as live.
   */
  ghost predicate MallocAnswer(s: State, s': State, bytes: nat, mm: nat, t: nat, mem: nat) {
    var nb := ChunkSize(bytes);
    if NoneFree(s, nb) then
      var p := if mem < CHUNK_OVERHEAD then mem else mem - CHUNK_OVERHEAD;
      SystemServes(s, s', mm, DirectSize(nb), t, SystemSize(nb), p, nb)
    else
      mem >= CHUNK_OVERHEAD && Chosen(s, mem - CHUNK_OVERHEAD, nb) && Handed(s, s', mem - CHUNK_OVERHEAD, nb)
  }

  /** The answer of realloc: malloc for a new payload; in place if the payload fits there; else malloc, then free. */
  ghost predicate ReallocAnswer(s: State, checks: nat, s': State, checks': nat, mem: nat, bytes: nat, mm: nat, t: nat, r: nat) {
    if mem == 0 then MallocAnswer(s, s'.(live := s.live), bytes, mm, t, r)
    else if bytes >= MAX_REQUEST then r == 0
    else if PayloadFits(s, mem, ChunkSize(bytes)) then r == mem && PayloadResized(s, s'.(live := s.live), mem, ChunkSize(bytes))
    else if r == 0 then MallocAnswer(s, s, bytes, mm, t, 0)
    else r != mem && exists s1 :: MoveAnswer(s, checks, s1, s', checks', mem, bytes, mm, t, r)
  }

  ghost predicate MoveAnswer(s: State, checks: nat, s1: State, s': State, checks': nat, mem: nat, bytes: nat, mm: nat, t: nat, r: nat) {
    && MallocAnswer(s, s1, bytes, mm, t, r)
    && FreeAnswer(s1.(live := s.live[r := bytes]), ChecksLeft(s, s1, checks), s', checks', mem)
  }

  /** The first segment sets the count of the chunks to be freed before segments are offered. */
  ghost function ChecksLeft(s: State, s': State, checks: nat): (n: nat) {
    if s.segs == [] && s'.segs != [] then MAX_RELEASE_CHECK_RATE else checks
  }

  /**
   * The payload can have a chunk of nb bytes where it is.  A direct mapping is kept for a large request if
   * it holds the bytes and a word more, and not more than two allocation units too many.
   */
  ghost predicate PayloadFits(s: State, mem: nat, nb: nat) {
    && mem >= CHUNK_OVERHEAD
    && var p := mem - CHUNK_OVERHEAD;
       if p in s.chunks then FitsInPlace(s, p, nb)
       else p in s.direct && !Bins.IsSmall(nb) && nb + 8 + MMAP_FOOT_PAD <= s.direct[p] <= nb + 2 * GRANULARITY + MMAP_FOOT_PAD
  }

  ghost predicate PayloadResized(s: State, s': State, mem: nat, nb: nat) {
    && mem >= CHUNK_OVERHEAD
    && var p := mem - CHUNK_OVERHEAD;
       if p in s.chunks then Resized(s, s', p, nb) else s' == s
  }

  lemma FitsWithout(s: State, mem: nat, p: nat, nb: nat)
    ensures FitsInPlace(s.(live := s.live - {mem}), p, nb) <==> FitsInPlace(s, p, nb)
  {
  }

  lemma ResizedLive(s: State, s': State, mem: nat, p: nat, nb: nat)
    requires Resized(s.(live := s.live - {mem}), s', p, nb)
    ensures Resized(s, s'.(live := s.live), p, nb)
  {
  }

  /** The size of the binned chunk at a, or 0. */
  ghost function BinnedAt(s: State, a: nat): (z: nat) {
    if a in s.free then s.free[a] else 0
  }

  /** The usable bytes of one live payload do not reach another payload. */
  lemma UsableApart(s: State, m: nat, n: nat)
    requires Inv(s, {}) && m in s.live && n in s.live && m != n
    ensures m >= CHUNK_OVERHEAD
    ensures var p := m - CHUNK_OVERHEAD;
      && p in s.head && s.live[m] + CHUNK_OVERHEAD <= s.head[p].size
      && (m < n ==> m + s.head[p].size <= n + CHUNK_OVERHEAD) && (n < m ==> n + s.live[n] <= m)
  {
    LiveFacts(s, m);
    if m < n {
      UsableDisjoint(s, m, n, {});
    } else {
      UsableDisjoint(s, n, m, {});
    }
  }

  function Byte(data: map<nat, nat>, a: nat): (b: nat) {
    if a in data then data[a] else 0
  }

  const MIN_REQUEST: nat := MIN_CHUNK_SIZE - CHUNK_OVERHEAD - 1
  const MAX_SMALL_REQUEST: nat := 224
  const MAX_REQUEST: nat := WORD - 128

  /** The size of the chunk for a request; the largest word for a request that is out of bounds. */
  function ChunkSize(bytes: nat): (nb: nat) {
    if bytes >= MAX_REQUEST then WORD - 1
    else if bytes < MIN_REQUEST then MIN_CHUNK_SIZE
    else var x := bytes + CHUNK_OVERHEAD + 15; x - x % ALIGNMENT
  }

  lemma ChunkSizeFacts(bytes: nat)
    requires bytes < WORD
    ensures var nb := ChunkSize(bytes);
      && MIN_CHUNK_SIZE <= nb < WORD && (bytes < MAX_REQUEST ==> Aligned(nb) && bytes + CHUNK_OVERHEAD <= nb <= bytes + 32)
      && (bytes <= MAX_SMALL_REQUEST ==> Bins.IsSmall(nb)) && (MAX_SMALL_REQUEST < bytes < MAX_REQUEST ==> !Bins.IsSmall(nb))
      && (bytes >= MAX_REQUEST ==> nb == WORD - 1)
  {
    if MIN_REQUEST <= bytes < MAX_REQUEST {
      var x := bytes + CHUNK_OVERHEAD + 15;
      RoundedMultiple(x, ALIGNMENT);
    }
  }

  /** What the system may return for a request of the given number of bytes: fresh pages, or 0. */
  ghost predicate SystemReturns(s: State, bytes: nat, mm: nat, tbase: nat) {
    var nb := ChunkSize(bytes);
    && (mm != 0 && DirectSize(nb) > nb ==> Fresh(s, mm, DirectSize(nb)))
    && (tbase != 0 && SystemSize(nb) > nb ==> Fresh(s, tbase, SystemSize(nb)))
  }

  const GRANULARITY: nat := 0x10000
  const SYS_ALLOC_PADDING: nat := TOP_FOOT_SIZE + ALIGNMENT

  /** x rounded up to a multiple of unit, in 64-bit arithmetic. */
  function RoundUp64(x: nat, unit: nat): (r: nat)
    requires 0 < unit
  {
    var y := (x + (unit - 1)) % WORD;
    y - y % unit
  }

  /** The length that mmap_alloc asks the system for. */
  function DirectSize(nb: nat): (r: nat) {
    RoundUp64((nb + 48 + 15) % WORD, PAGE_SIZE)
  }

  /** The length that sys_alloc asks the system for. */
  function SystemSize(nb: nat): (r: nat) {
    RoundUp64((nb + SYS_ALLOC_PADDING) % WORD, GRANULARITY)
  }

  /** The comparison of the rounded size with nb detects wrap-around exactly. */
  lemma RoundUpExact(nb: nat, pad: nat, unit: nat)
    requires nb < WORD && 0 < pad && pad + unit <= 0x20000 && 0 < unit
    ensures var r := RoundUp64((nb + pad) % WORD, unit);
      && (r > nb <==> nb + pad + (unit - 1) < WORD)
      && (r > nb ==> nb + pad <= r < nb + pad + unit && r % unit == 0)
  {
    var x := (nb + pad) % WORD;
    var y := (x + (unit - 1)) % WORD;
    var r := y - y % unit;
    if nb + pad >= WORD {
      assert x == nb + pad - WORD;
    } else if x + (unit - 1) >= WORD {
      assert y == x + (unit - 1) - WORD;
      assert r <= y;
    } else {
      assert x == nb + pad && y == x + (unit - 1);
      assert y % unit <= unit - 1;
      RoundedMultiple(y, unit);
    }
  }

  lemma RoundedMultiple(y: nat, unit: nat)
    requires 0 < unit
    ensures (y - y % unit) % unit == 0
  {
    assert y - y % unit == unit * (y / unit);
    DivUnique(y - y % unit, unit, y / unit, 0);
  }

  lemma DirectSizeExact(nb: nat)
    requires nb < WORD
    ensures DirectSize(nb) > nb <==> nb + 63 + 4095 < WORD
    ensures DirectSize(nb) > nb ==> nb + 63 <= DirectSize(nb) < nb + 63 + 4096 && Paged(DirectSize(nb))
  {
    RoundUpExact(nb, 63, PAGE_SIZE);
  }

  lemma SystemSizeExact(nb: nat)
    requires nb < WORD
    ensures SystemSize(nb) > nb <==> nb + 96 + 65535 < WORD
    ensures SystemSize(nb) > nb ==> nb + 96 <= SystemSize(nb)
  {
    RoundUpExact(nb, 96, GRANULARITY);
  }

  /** The least set bit above an empty bin is the first non-empty small bin from there. */
  lemma LeastMarked(b: Bins.Bins, leftbits: set<nat>, idx: nat, i: nat)
    requires b.Valid() && idx !in b.smallmap && leftbits == (set j | j in b.smallmap && j > idx)
    requires i in leftbits && forall j :: j in leftbits ==> i <= j
    ensures forall a | a in b.free :: b.free[a] < 8 * idx || 8 * i <= b.free[a]
  {
    forall j | j in b.smallmap ensures j < idx || i <= j { assert j > idx ==> j in leftbits; }
    b.FirstFrom(idx, i);
  }

  lemma SmallBins(b: Bins.Bins)
    requires b.Valid()
    ensures forall i | i in b.smallmap :: i < Bins.NSMALLBINS
  {
  }

  lemma AlignedEight(x: nat)
    requires Aligned(x)
    ensures x == 8 * (x / 8)
  {
  }

  /** Free chunks are smaller than the address space. */
  lemma SizesBelowWord(s: State)
    requires Inv(s, {})
    ensures s.dvsize + 16 < WORD && s.topsize + 16 < WORD
    ensures forall a | a in s.free :: s.free[a] + 16 < WORD
  {
    forall a | a in s.free
      ensures s.free[a] + 16 < WORD
    {
      BinnedFree(s, a, {});
    }
    VictimFacts(s, {});
    if s.topsize > 0 { TopFacts(s, {}); }
  }

  lemma AllBelow(s: State)
    requires Inv(s, {})
    ensures forall a | a in s.free :: s.free[a] < WORD - 1
  {
    SizesBelowWord(s);
  }

  lemma PayloadAligned(s: State, p: nat)
    requires UsedFacts(s, p)
    ensures Aligned(p + CHUNK_OVERHEAD)
  {
    hide FreeFacts;
  }

  lemma DirectAligned(s: State, p: nat)
    requires Inv(s, {}) && p in s.direct
    ensures Aligned(p + CHUNK_OVERHEAD)
  {
    assert DirectOk(s, p);
    PageAligned(p);
    hide Inv;
  }

  /** The first chunk of a segment and its tag. */
  lemma BaseFacts(s: State, k: nat)
    requires Inv(s, {}) && k < |s.segs|
    ensures var b := s.segs[k].base;
      && b in s.chunks && b in s.head && s.head[b].size == s.chunks[b].size && s.head[b].cinuse == s.chunks[b].inuse
      && (!s.chunks[b].inuse ==> FreeFacts(s, b))
      && s.segs[k].size >= PAGE_SIZE
  {
    hide FreeFacts;
    var b := s.segs[k].base;
    assert SegOk(s, k);
    assert TagOk(s, b);
    if !s.chunks[b].inuse { FreeChunk(s, b, {}); }
    PagePositive(s.segs[k].size);
  }

  lemma PagePositive(x: nat)
    requires Paged(x) && x > 0
    ensures x >= PAGE_SIZE
  {
  }

  /** Top is not in the segments after the first. */
  lemma NotTop(s: State, k: nat)
    requires Inv(s, {}) && 0 < k < |s.segs|
    ensures s.segs[k].base != s.top
  {
    assert SegOk(s, k);
    if s.top != 0 {
      TopPlace(s, {});
    }
  }

  lemma NullNotLive(s: State)
    requires Inv(s, {})
    ensures 0 !in s.live
  {
    assert 0 in s.live ==> PayloadOk(s, 0);
  }

  /** The head of a live payload says whether its chunk was mapped directly. */
  lemma LiveFacts(s: State, m: nat)
    requires Inv(s, {}) && m in s.live
    ensures m >= CHUNK_OVERHEAD
    ensures var p := m - CHUNK_OVERHEAD;
      && p in s.head && (p in s.chunks <==> s.head[p].pinuse || s.head[p].cinuse)
      && (p in s.chunks ==> s.chunks[p].inuse && s.live[m] + CHUNK_OVERHEAD <= s.chunks[p].size && s.head[p].size == s.chunks[p].size)
      && (p !in s.chunks ==> p in s.direct && s.live[m] + CHUNK_OVERHEAD + MMAP_FOOT_PAD <= s.direct[p] == s.head[p].size + MMAP_FOOT_PAD)
  {
    assert PayloadOk(s, m);
    var p := m - CHUNK_OVERHEAD;
    if p in s.chunks {
      assert TagOk(s, p);
      ChunkNotDirect(s, p);
    } else {
      assert DirectOk(s, p);
    }
  }

  lemma ChunkHasSegment(s: State, p: nat)
    requires Inv(s, {}) && p in s.chunks
    ensures s.segs != []
  {
    assert Placed(s.chunks, s.segs, p);
  }

  lemma UsedSizes(s: State, p: nat)
    requires UsedFacts(s, p)
    ensures p in s.chunks && p in s.head && s.head[p].size == s.chunks[p].size && Reach(s, p, End(s.chunks, p))
    ensures var n := End(s.chunks, p);
      n in s.chunks && n in s.head && s.head[n].cinuse == s.chunks[n].inuse && s.head[n].size == s.chunks[n].size
  {
    hide FreeFacts;
  }

  /** The free chunk after p extends the reach of p. */
  lemma NextReach(s: State, p: nat)
    requires Inv(s, {p}) && UsedFacts(s, p)
    ensures var n := End(s.chunks, p);
      && p in s.head && n in s.head && n in s.chunks
      && (n == s.top || n == s.dv ==> !s.chunks[n].inuse && n !in s.free && s.free - {n} == s.free)
      && (!s.chunks[n].inuse ==>
            && Reach(s, p, End(s.chunks, n)) && End(s.chunks, n) in s.head && !s.head[End(s.chunks, n)].pinuse
            && (n == s.top ==> s.chunks[n].size == s.topsize) && (n == s.dv ==> s.chunks[n].size == s.dvsize)
            && (n != s.top && n != s.dv ==> n in s.free && s.free[n] == s.chunks[n].size)
            && s.head[n].size == s.chunks[n].size && s.chunks[n].size > 0)
      && n > 0 && (s.dv == s.top ==> s.dv == 0) && p != s.top && p != s.dv
      && s.head[p].size == s.chunks[p].size
  {
    hide Aligned;
    var n := End(s.chunks, p);
    if !s.chunks[n].inuse { FreeChunk(s, n, {p}); }
  }

  lemma ReachEnds(s: State, p: nat, e: nat)
    requires Reach(s, p, e)
    ensures p in s.head && e in s.head && p < e && p in s.chunks && End(s.chunks, p) in s.chunks && s.head[p].cinuse
    ensures End(s.chunks, p) <= e
    ensures p != s.top && p != s.dv && (s.chunks[End(s.chunks, p)].inuse ==> e == End(s.chunks, p))
  {
    hide Aligned;
  }

  lemma Unresized(s: State, p: nat, nb: nat)
    requires p in s.chunks && nb <= s.chunks[p].size < nb + MIN_CHUNK_SIZE
    ensures Resized(s, s, p, nb)
  {
  }

  /** The state once the segments before k have been offered. */
  ghost function OfferedBefore(s: State, k: nat): (s': State) {
    if exists j: nat :: j < k && VictimFills(s, j) then VictimBinned(s) else s
  }

  /** Offering segment k moves the victim exactly if that fills the segment. */
  lemma OfferStep(s: State, k: nat, s1: State)
    requires 0 < k < |s.segs| && s1 == OfferedBefore(s, k) && Inv(s1, {})
    ensures var base := s.segs[k].base;
      var fills := base in s1.head && !s1.head[base].cinuse && s1.head[base].size + TOP_FOOT_SIZE >= s.segs[k].size;
      OfferedBefore(s, k + 1) == if fills && s1.dv == base then VictimBinned(s1) else s1
  {
    assert SegOk(s1, k) && TagOk(s1, s1.segs[k].base);
    assert VictimFills(s, k) ==> exists j: nat :: j < k + 1 && VictimFills(s, j);
    assert (exists j: nat :: j < k + 1 && VictimFills(s, j)) <==> VictimFills(s, k) || exists j: nat :: j < k && VictimFills(s, j);
  }

  lemma OfferedKeeps(s: State)
    ensures Offered(s).chunks == s.chunks && Offered(s).segs == s.segs
  {
  }

  lemma FreedPositive(s: State, a: nat)
    requires Inv(s, {})
    ensures a in s.free ==> s.free[a] > 0
  {
    assert a in s.free ==> Binnable(s, a);
    assert a in s.chunks ==> Placed(s.chunks, s.segs, a);
  }

  lemma EnlargedTop(s: State, mid: State, t: nat, n: nat)
    requires Enlarged(s, mid, t, n)
    ensures mid.topsize >= n - TOP_FOOT_SIZE && mid.segs != []
  {
    assert |Extents(mid.segs)| > 0;
  }

  lemma FrontSegments(s: State, s': State, k: nat, t: nat, n: nat, nb: nat)
    requires FrontUsed(s, s', k, t, n, nb)
    ensures s'.segs != []
  {
    assert |Extents(s'.segs)| > 0;
  }

  lemma FreshPositive(s: State, t: nat, n: nat)
    requires Fresh(s, t, n)
    ensures t > 0
  {
  }

  /** If the segment that ends at t does not hold top, or there is none, the memory at t does not follow the segment of top. */
  lemma NotAdjoining(s: State, t: nat, k: nat)
    requires Inv(s, {}) && s.top != 0 && s.segs != [] && k <= |s.segs|
    requires k < |s.segs| ==> s.segs[k].base + s.segs[k].size == t && !Holds(s.segs[k], s.top)
    requires k == |s.segs| ==> forall j: nat | j < |s.segs| :: s.segs[j].base + s.segs[j].size != t
    ensures !Adjoins(s, t)
  {
    TopPlace(s, {});
    assert Holds(s.segs[0], s.top);
    assert SegOk(s, 0);
    if 0 < k < |s.segs| { assert SegOk(s, k) && SegsApart(s.segs[0], s.segs[k]); }
  }

  lemma FirstHoldsTop(s: State, k: nat)
    requires Inv(s, {}) && s.top != 0 && k < |s.segs| && Holds(s.segs[k], s.top)
    ensures k == 0
  {
    TopPlace(s, {});
    FirstHolds(s, k);
  }

  lemma TopHasSegment(s: State)
    requires Inv(s, {}) && s.top != 0
    ensures s.segs != []
  {
  }

  lemma OrphanPositive(s: State, p: nat)
    requires Inv(s, {p})
    ensures p > 0
  {
    assert Placed(s.chunks, s.segs, p);
  }

  predicate Holds(g: Segment, a: nat) {
    g.base <= a < g.base + g.size
  }

  const FENCEPOST_HEAD: Head := Head(8, true, true)

  /** A fencepost belongs at every word from lo on, as long as its own head ends before hi. */
  ghost predicate FencePost(lo: nat, hi: nat, a: nat) {
    lo <= a && a + 8 < hi && (a - lo) % 8 == 0
  }

  ghost predicate Posts(h: map<nat, Head>, lo: nat, hi: nat) {
    forall a: nat | FencePost(lo, hi, a) :: a in h && h[a] == FENCEPOST_HEAD
  }

  /** The fenceposts from lo up to hi are in place, and all other heads are as before. */
  ghost predicate Fenced(h: map<nat, Head>, h': map<nat, Head>, lo: nat, hi: nat) {
    Posts(h', lo, hi) && forall a: nat | !FencePost(lo, hi, a) :: (a in h' <==> a in h) && (a in h ==> h'[a] == h[a])
  }

  lemma RecordInside(s: State)
    requires Inv(s, {}) && s.segs != [] && s.top != 0
    ensures s.segs[0].base <= RecordAt(s)
  {
    hide Inv, TopPlaced, RecordAt;
    TopPlace(s, {});
    RetireFacts(s);
  }

  lemma PostsKept(s: State, t: nat, n: nat, lo: nat)
    requires s.segs != [] && Fresh(s, t, n) && n > TOP_FOOT_SIZE && s.segs[0].base <= lo
    requires Posts(s.head, lo, s.segs[0].base + s.segs[0].size)
    ensures Posts(WithTop(s, t, n).head, lo, s.segs[0].base + s.segs[0].size)
  {
    hide Paged;
    assert Disjoint(s.segs[0].base, s.segs[0].size, t, n);
  }

  lemma FencedKeeps(h: map<nat, Head>, h': map<nat, Head>, r: nat, end: nat)
    requires Fenced(h[r := Head(RECORD_SIZE, true, true)], h', r + RECORD_SIZE, end)
    ensures r in h' && h'[r] == Head(RECORD_SIZE, true, true)
  {
  }

  /** How far an address is below the next aligned one. */
  function AlignOffset(a: nat): (o: nat)
    ensures Aligned(a + o) && o < ALIGNMENT
  {
    if a % ALIGNMENT == 0 then 0 else ALIGNMENT - a % ALIGNMENT
  }

  lemma AlignBack(end: nat)
    requires Aligned(end) && end >= 95
    ensures end - 95 + AlignOffset(end - 95 + CHUNK_OVERHEAD) == end - TOP_FOOT_SIZE
  {
    var q := end / 16;
    assert end - 79 == 16 * (q - 5) + 1;
  }

  /** Where the record of the segment of top goes. */
  lemma RetireFacts(s: State)
    requires TopPlaced(s)
    ensures var g := s.segs[0]; var end := g.base + g.size;
      && g.base <= s.top < end && s.topsize > 0
      && end >= 95 && (end - 95) + AlignOffset(end - 95 + CHUNK_OVERHEAD) == end - TOP_FOOT_SIZE == s.top + s.topsize
      && (s.topsize < MIN_CHUNK_SIZE ==> RecordAt(s) == s.top) && (s.topsize >= MIN_CHUNK_SIZE ==> RecordAt(s) == s.top + s.topsize)
      && RecordAt(s) + RECORD_SIZE + 32 <= end < WORD && s.topsize % 8 == 0 && s.topsize < WORD && s.top !in s.free && s.top != 0
  {
    hide Aligned, AlignOffset, Paged;
    AlignedSum(s.top, s.topsize);
    AlignedSum(s.topsize, s.topsize);
    var end := s.segs[0].base + s.segs[0].size;
    assert Aligned(TOP_FOOT_SIZE) by { EightyAligned(); }
    AlignedSum(s.top + s.topsize, TOP_FOOT_SIZE);
    AlignBack(end);
  }

  lemma EightyAligned()
    ensures Aligned(TOP_FOOT_SIZE)
  {
  }

  /** State s' is s with a record at r before a fence, and the part of top below r tagged free and binned. */
  ghost predicate RecordWritten(s: State, s': State, r: nat, end: nat, f: map<nat, Head>)
    requires s.top <= r
  {
    var z: nat := r - s.top;
    && Fenced(s.head[r := Head(RECORD_SIZE, true, true)], f, r + RECORD_SIZE, end)
    && s'.head == RecordedHeads(f, s.top, r)
    && s' == if r == s.top then s.(head := s'.head)
             else s.(head := s'.head, foot := s.foot[r := z], free := s.free[s.top := z])
  }

  ghost function RecordedHeads(f: map<nat, Head>, p: nat, r: nat): map<nat, Head>
    requires p <= r
  {
    if r == p then f else f[r := Head(RECORD_SIZE, true, false)][p := Head(r - p, false, true)]
  }

  lemma RetiredBy(s: State, s1: State, s': State, f: map<nat, Head>)
    requires TopPlaced(s) && RecordAt(s) + RECORD_SIZE + 8 < s.segs[0].base + s.segs[0].size
    requires RecordWritten(s, s1, RecordAt(s), s.segs[0].base + s.segs[0].size, f)
    requires var r := RecordAt(s);
      s' == s1.(chunks := s.chunks[r := Chunk(RECORD_SIZE, true)], records := s.records + {r}, top := 0, topsize := 0,
                segs := s.segs[0 := s.segs[0].(stop := r + RECORD_SIZE)])
    ensures Retired(s, s') && Posts(s'.head, RecordAt(s) + RECORD_SIZE, s.segs[0].base + s.segs[0].size)
  {
    hide TopPlaced, TopAndVictim, RecordAt, AlignOffset, Aligned, Fenced, RecordedHeads, Posts;
    RetireFacts(s);
    PlacedTops(s);
    RecordHeads(s.head, f, s.top, RecordAt(s), s.segs[0].base + s.segs[0].size);
  }

  /** The heads of a record before a fence, and of a free chunk below it. */
  lemma RecordHeads(h: map<nat, Head>, f: map<nat, Head>, p: nat, r: nat, end: nat)
    requires Fenced(h[r := Head(RECORD_SIZE, true, true)], f, r + RECORD_SIZE, end) && p <= r && r + RECORD_SIZE + 8 < end
    ensures var h' := RecordedHeads(f, p, r);
      && Posts(h', r + RECORD_SIZE, end)
      && (forall a :: a in h && (a < p || a >= end) ==> a in h' && h'[a] == h[a])
      && r in h' && h'[r] == Head(RECORD_SIZE, true, r == p) && r + RECORD_SIZE in h' && h'[r + RECORD_SIZE].pinuse
      && (r != p ==> p in h' && h'[p] == Head(r - p, false, true))
  {
    assert FencePost(r + RECORD_SIZE, end, r + RECORD_SIZE);
  }

  lemma PlacedTops(s: State)
    requires TopPlaced(s)
    ensures TopAndVictim(s) && s.segs != []
  {
  }

  lemma FirstHolds(s: State, k: nat)
    requires TopPlaced(s) && k < |s.segs| && Holds(s.segs[k], s.top)
    ensures k == 0
  {
  }

  lemma FreshKept(s: State, s': State, t: nat, n: nat)
    requires Fresh(s, t, n) && |s'.segs| == |s.segs| && s'.direct == s.direct
    requires forall k: nat | k < |s.segs| :: s'.segs[k].base == s.segs[k].base && s'.segs[k].size == s.segs[k].size
    ensures Fresh(s', t, n)
  {
  }

  /** Freeing p leaves the chunks below it alone when the one before p is in use, and top exists if it did. */
  lemma FreedKeeps(s: State, s': State, p: nat, a: nat)
    requires UsedFacts(s, p) && Freed(s, s', p) && a in s.chunks && a < p && s.head[p].pinuse
    ensures a in s'.chunks && s'.chunks[a] == s.chunks[a] && (s.top != 0 ==> s'.top != 0)
  {
  }

  lemma FirstFacts(s: State, q: nat)
    requires UsedFacts(s, q) && s.head[q].pinuse && TopAndVictim(s)
    ensures var n := End(s.chunks, q);
      && q in s.head && q > 0 && q !in s.free && n in s.chunks && n in s.head && q < n < WORD && (n - q) % 8 == 0
      && s.head[n].cinuse == s.chunks[n].inuse && q != s.dv && q != s.top
      && (n == s.top || n == s.dv ==> !s.chunks[n].inuse)
      && (!s.chunks[n].inuse ==> FreeFacts(s, n) && End(s.chunks, n) in s.head && !s.head[End(s.chunks, n)].pinuse)
      && AroundStart(s, q) == q && AroundEnd(s, q) == (if s.chunks[n].inuse then n else End(s.chunks, n))
  {
    MergedSize(s, q);
    hide Aligned;
  }

  lemma TopFacts(s: State, orphans: set<nat>)
    requires Inv(s, orphans) && s.topsize > 0
    ensures FreeFacts(s, s.top) && s.top in s.chunks && s.chunks[s.top].size == s.topsize && s.top != s.dv
  {
    FreeChunk(s, s.top, orphans);
  }

  lemma RemainderFacts(s: State, p: nat, nb: nat, orphans: set<nat>)
    requires Inv(s, orphans) && p in s.chunks && Aligned(nb)
    ensures 0 < nb < s.chunks[p].size ==> p + nb !in s.free && (s.chunks[p].size - nb) % 8 == 0
  {
    if 0 < nb < s.chunks[p].size {
      InsideUnowned(s, p, p + nb, orphans);
      assert Aligned(s.chunks[p].size) by { assert Placed(s.chunks, s.segs, p); }
      hide Inv;
      AlignedRest(s.chunks[p].size, nb);
    }
  }

  lemma SmallIndex(nb: nat)
    requires Aligned(nb) && Bins.IsSmall(nb)
    ensures nb == 8 * (nb / 8) && nb / 8 + 1 < Bins.NSMALLBINS
  {
    assert nb == 16 * (nb / 16);
  }

  lemma AlignedRest(x: nat, y: nat)
    requires Aligned(x) && Aligned(y) && y <= x
    ensures (x - y) % 8 == 0
  {
    DivUnique(x - y, 8, 2 * (x / 16) - 2 * (y / 16), 0);
  }

  /** A chunk found in the bins. */
  lemma BinnedFree(s: State, p: nat, orphans: set<nat>)
    requires Inv(s, orphans) && p in s.free
    ensures FreeFacts(s, p) && p != s.top && p != s.dv && s.chunks[p].size == s.free[p] < WORD
  {
    assert Binnable(s, p);
    FreeChunk(s, p, orphans);
  }

  lemma VictimFacts(s: State, orphans: set<nat>)
    requires Inv(s, orphans)
    ensures s.dv == 0 <==> s.dvsize == 0
    ensures s.dvsize % 8 == 0 && s.dv !in s.free && (s.dv != 0 ==> FreeFacts(s, s.dv) && s.dv != s.top && s.dvsize >= MIN_CHUNK_SIZE)
    ensures s.dv != 0 ==> s.dv in s.chunks && s.chunks[s.dv].size == s.dvsize
  {
    hide Layout, Calm, Tagged, Segments, Owned;
    assert Binnable(s, s.dv) <==> s.dv in s.free;
    if s.dv != 0 {
      FreeChunk(s, s.dv, orphans);
      assert RoleOk(s, s.dv);
    }
  }

  /** Cutting a binned chunk and replacing the victim by the remainder. */
  lemma CarvedSmall(s: State, s': State, p: nat, nb: nat)
    requires Inv(s, {}) && p in s.free && FreeFacts(s, p) && p != s.top && p != s.dv
    requires Aligned(nb) && nb >= MIN_CHUNK_SIZE && s.chunks[p].size - nb >= MIN_CHUNK_SIZE && Bins.IsSmall(nb)
    requires var r, e := p + nb, End(s.chunks, p);
      && s' == s.(head := s.head[p := Head(nb, true, true)][r := Head(e - r, false, true)], foot := s.foot[e := e - r],
                  chunks := Patched(s.chunks, p, e, Two(p, r, e, true, false)),
                  free := if s.dvsize == 0 then s.free - {p} else (s.free - {p})[s.dv := s.dvsize], dv := r, dvsize := e - r)
    ensures Inv(s', {p}) && p in s'.chunks && s'.chunks[p].size == nb && Handed(s, s', p, nb)
  {
    hide Inv, Patched, Aligned, Two;
    VictimFacts(s, {});
    var s1 := VictimBinned(s);
    VictimBinnedInv(s, {});
    BinnedFree(s1, p, {});
    assert s'.free == s1.free - {p};
    assert TakenPart(s1, s', p, nb, ToVictim);
    TakenPartInv(s1, s', p, nb, ToVictim, {});
    HandedPart(s1, s', p, nb, ToVictim);
    assert {} + {p} == {p};
  }
}
