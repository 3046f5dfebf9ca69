/** Memory from the system: the first segment, growing a segment at either end, adding one, and direct mappings. */
module HeapGrow {
  import opened Words
  import opened HeapShape
  import opened HeapPatch
  import opened HeapSteps
  import opened HeapFacts
  import opened HeapFree
  import opened HeapAlloc

  ghost predicate FreshFromSegs(s: State, t: nat, n: nat) {
    forall k: nat {:trigger s.segs[k]} | k < |s.segs| :: Disjoint(s.segs[k].base, s.segs[k].size, t, n)
  }

  ghost predicate FreshFromDirect(s: State, t: nat, n: nat) {
    forall p | p in s.direct :: Disjoint(p, s.direct[p], t, n)
  }

  /** A mapping of n bytes at t that the system may return: whole pages that nothing else uses. */
  ghost predicate Fresh(s: State, t: nat, n: nat) {
    && 0 < t && Paged(t) && Paged(n) && 0 < n && t + n < WORD
    && FreshFromSegs(s, t, n) && FreshFromDirect(s, t, n)
  }

  /** The tags of chunks and direct mappings lie inside their segments and mappings. */
  lemma Elsewhere(s: State, x: nat, a: nat)
    requires Layout(s.chunks, s.segs) && Segments(s) && a in s.chunks
    requires forall k: nat {:trigger s.segs[k]} | k < |s.segs| :: !(s.segs[k].base <= x < s.segs[k].base + s.segs[k].size)
    ensures a != x && End(s.chunks, a) != x
  {
    assert Placed(s.chunks, s.segs, a);
    var k: nat :| k < |s.segs| && s.segs[k].base <= a < s.segs[k].stop;
    assert SegOk(s, k);
    assert End(s.chunks, a) <= s.segs[k].stop;
  }

  // ----- a direct mapping

  ghost function Mapped(s: State, t: nat, n: nat): State
    requires n > MMAP_FOOT_PAD
  {
    s.(direct := s.direct[t := n], head := s.head[t := Head(n - MMAP_FOOT_PAD, false, false)])
  }

  lemma MappedInv(s: State, t: nat, n: nat, orphans: set<nat>)
    requires Inv(s, orphans) && Fresh(s, t, n) && n > MMAP_FOOT_PAD
    ensures Inv(Mapped(s, t, n), orphans)
    ensures t + CHUNK_OVERHEAD !in s.live && t !in s.chunks
  {
    hide Layout, Calm, Tagged, Segments, Owned, Binned, Fresh;
    MappedTags(s, t, n);
    MappedSegments(s, t, n);
    MappedOwned(s, t, n, orphans);
    BinnedSame(s, Mapped(s, t, n));
  }

  lemma MappedTags(s: State, t: nat, n: nat)
    requires Layout(s.chunks, s.segs) && Tagged(s) && Segments(s) && TopAndVictim(s) && Fresh(s, t, n) && n > MMAP_FOOT_PAD
    ensures Tagged(Mapped(s, t, n)) && TopAndVictim(Mapped(s, t, n)) && t !in s.chunks
  {
    hide Layout, Segments, Paged;
    var s' := Mapped(s, t, n);
    forall a | a in s.chunks ensures TagOk(s', a) && RoleOk(s', a) && a != t {
      assert TagOk(s, a) && RoleOk(s, a);
      Elsewhere(s, t, a);
    }
  }

  lemma MappedSegments(s: State, t: nat, n: nat)
    requires Segments(s) && Fresh(s, t, n) && n > MMAP_FOOT_PAD
    ensures Segments(Mapped(s, t, n))
  {
    hide Paged, Aligned;
    var s' := Mapped(s, t, n);
    forall k: nat | k < |s.segs| ensures SegOk(s', k) { assert SegOk(s, k); }
    forall p | p in s'.direct ensures DirectOk(s', p) { assert p != t ==> DirectOk(s, p); }
    forall k: nat, p | k < |s.segs| && p in s'.direct ensures DirectApart(s', k, p) { assert p != t ==> DirectApart(s, k, p); }
    forall p, q | p in s'.direct && q in s'.direct && p != q ensures DirectsApart(s', p, q) {
      assert p != t && q != t ==> DirectsApart(s, p, q);
    }
  }

  lemma MappedOwned(s: State, t: nat, n: nat, orphans: set<nat>)
    requires Owned(s, orphans) && Segments(s) && Fresh(s, t, n) && n > MMAP_FOOT_PAD && t !in s.chunks
    ensures Owned(Mapped(s, t, n), orphans) && t + CHUNK_OVERHEAD !in s.live
  {
    hide Paged;
    var s', m := Mapped(s, t, n), t + CHUNK_OVERHEAD;
    assert t in s.direct ==> DirectOk(s, t);
    assert m in s.live ==> PayloadOk(s, m);
    forall m | m in s.live ensures PayloadOk(s', m) { assert PayloadOk(s, m); }
    forall a | a in s.chunks && s.chunks[a].inuse ensures OwnerOk(s', a, orphans) { assert OwnerOk(s, a, orphans); }
  }

  lemma BinnedSame(s: State, s': State)
    requires Binned(s) && s'.free == s.free && s'.chunks == s.chunks && s'.dv == s.dv && s'.top == s.top
    ensures Binned(s')
  {
    forall a: nat
      ensures a in s'.free <==> Binnable(s', a)
      ensures a in s'.free ==> s'.free[a] == s'.chunks[a].size
    {
      assert Binnable(s, a) <==> a in s.free;
    }
  }

  // ----- growing a segment downwards by a chunk in use

  ghost function ExtendedDown(s: State, k: nat, t: nat, n: nat): State
    requires k < |s.segs|
  {
    s.(segs := s.segs[k := Segment(t, s.segs[k].size + n, s.segs[k].stop)],
       head := s.head[t := Head(n, true, true)], chunks := s.chunks[t := Chunk(n, true)])
  }

  lemma ExtendedDownInv(s: State, k: nat, t: nat, n: nat, orphans: set<nat>)
    requires Inv(s, orphans) && Fresh(s, t, n) && k < |s.segs| && t + n == s.segs[k].base
    ensures Inv(ExtendedDown(s, k, t, n), orphans + {t})
    ensures t !in s.chunks
  {
    var s' := ExtendedDown(s, k, t, n);
    assert SegOk(s, k);
    DownLayout(s, k, t, n);
    DownTags(s, k, t, n);
    DownSegments(s, k, t, n);
    DownOwned(s, k, t, n, orphans);
    DownTops(s, k, t, n);
  }

  lemma DownLayout(s: State, k: nat, t: nat, n: nat)
    requires Layout(s.chunks, s.segs) && Calm(s.chunks) && Segments(s) && Fresh(s, t, n)
    requires k < |s.segs| && t + n == s.segs[k].base
    ensures var s' := ExtendedDown(s, k, t, n); Layout(s'.chunks, s'.segs) && Calm(s'.chunks)
    ensures t !in s.chunks
  {
    hide Aligned, Calm, NoStop, IsStop, InSegment;
    var s' := ExtendedDown(s, k, t, n);
    var c, c' := s.chunks, s'.chunks;
    forall a | a in c ensures a != t { ClearOf(s, t, n, a); }
    DownPlaced(s, k, t, n);
    forall a | a in c'
      ensures Placed(c', s'.segs, a)
    {
      if a != t { StillPlaced(s, k, t, n, a); }
    }
    forall a, b | a in c' && b in c'
      ensures Apart(c', a, b)
    {
      if a != t && b != t {
        assert Apart(c, a, b);
      } else if a != t {
        ClearOf(s, t, n, a);
      } else if b != t {
        ClearOf(s, t, n, b);
      }
    }
    DownCalm(s, k, t, n);
  }

  lemma PageAligned(x: nat)
    requires Paged(x)
    ensures Aligned(x) && (x >= TOP_FOOT_SIZE ==> Aligned(x - TOP_FOOT_SIZE))
  {
  }

  lemma PagedSum(x: nat, y: nat)
    requires Paged(x) && Paged(y)
    ensures Paged(x + y)
  {
  }

  /** A chunk lies entirely below or entirely above fresh memory. */
  lemma ClearOf(s: State, t: nat, n: nat, a: nat)
    requires Layout(s.chunks, s.segs) && Segments(s) && Fresh(s, t, n) && a in s.chunks
    ensures if a < t then End(s.chunks, a) < t else t + n <= a
  {
    hide Aligned;
    assert Placed(s.chunks, s.segs, a);
    var j: nat :| j < |s.segs| && s.segs[j].base <= a < s.segs[j].stop;
    assert SegOk(s, j);
    assert Disjoint(s.segs[j].base, s.segs[j].size, t, n);
    assert !(a <= s.segs[j].stop < End(s.chunks, a));
  }

  lemma DownPlaced(s: State, k: nat, t: nat, n: nat)
    requires Segments(s) && Fresh(s, t, n) && k < |s.segs| && t + n == s.segs[k].base
    ensures Placed(ExtendedDown(s, k, t, n).chunks, ExtendedDown(s, k, t, n).segs, t)
  {
    PageAligned(t);
    PageAligned(n);
    hide Aligned;
    var s' := ExtendedDown(s, k, t, n);
    assert SegOk(s, k);
    assert s'.segs[k].base <= t < s'.segs[k].stop;
    forall j: nat | j < |s'.segs| ensures !(t <= s'.segs[j].stop < t + n) {
      assert SegOk(s, j);
      assert Disjoint(s.segs[j].base, s.segs[j].size, t, n);
    }
  }

  lemma StillPlaced(s: State, k: nat, t: nat, n: nat, a: nat)
    requires a in s.chunks && Placed(s.chunks, s.segs, a) && a != t && k < |s.segs| && t < s.segs[k].base
    ensures a in ExtendedDown(s, k, t, n).chunks && Placed(ExtendedDown(s, k, t, n).chunks, ExtendedDown(s, k, t, n).segs, a)
  {
    hide Aligned;
    var s' := ExtendedDown(s, k, t, n);
    var c := s.chunks;
    var j: nat :| j < |s.segs| && s.segs[j].base <= a < s.segs[j].stop;
    assert s'.segs[j].base <= a < s'.segs[j].stop;
    if End(c, a) !in c {
      var i: nat :| i < |s.segs| && s.segs[i].stop == End(c, a);
      assert s'.segs[i].stop == End(c, a);
    }
  }

  lemma DownCalm(s: State, k: nat, t: nat, n: nat)
    requires Layout(s.chunks, s.segs) && Calm(s.chunks) && Segments(s) && Fresh(s, t, n) && k < |s.segs|
    ensures Calm(ExtendedDown(s, k, t, n).chunks)
  {
    hide Layout, Segments, Fresh;
    var c, c' := s.chunks, ExtendedDown(s, k, t, n).chunks;
    forall a | a in c' ensures CalmAt(c', a) {
      if a != t {
        assert CalmAt(c, a);
        ClearOf(s, t, n, a);
      }
    }
  }

  lemma DownTags(s: State, k: nat, t: nat, n: nat)
    requires Layout(s.chunks, s.segs) && Tagged(s) && Segments(s) && Fresh(s, t, n)
    requires k < |s.segs| && t + n == s.segs[k].base
    ensures Tagged(ExtendedDown(s, k, t, n))
  {
    var s' := ExtendedDown(s, k, t, n);
    assert SegOk(s, k);
    forall a | a in s'.chunks
      ensures TagOk(s', a)
    {
      if a != t {
        assert TagOk(s, a);
        Elsewhere(s, t, a);
        if !s.head[a].pinuse { Elsewhere(s, t, a - s.foot[a]); }
      }
    }
  }

  lemma DownSegments(s: State, k: nat, t: nat, n: nat)
    requires Segments(s) && Fresh(s, t, n)
    requires k < |s.segs| && t + n == s.segs[k].base
    ensures Segments(ExtendedDown(s, k, t, n))
  {
    hide Paged, Aligned;
    var s' := ExtendedDown(s, k, t, n);
    PagedSum(s.segs[k].size, n) by { assert SegOk(s, k); }
    forall j: nat | j < |s'.segs|
      ensures SegOk(s', j)
    {
      assert SegOk(s, j) && SegOk(s, k);
      assert Disjoint(s.segs[j].base, s.segs[j].size, t, n);
    }
    forall i: nat, j: nat | i < j < |s'.segs|
      ensures SegsApart(s'.segs[i], s'.segs[j])
    {
      assert SegsApart(s.segs[i], s.segs[j]);
      assert SegOk(s, i) && SegOk(s, j);
      assert Disjoint(s.segs[i].base, s.segs[i].size, t, n) && Disjoint(s.segs[j].base, s.segs[j].size, t, n);
    }
    forall p | p in s.direct ensures DirectOk(s', p) { assert DirectOk(s, p); }
    forall j: nat, p | j < |s'.segs| && p in s.direct ensures DirectApart(s', j, p) {
      assert DirectApart(s, j, p) && SegOk(s, j) && DirectOk(s, p);
    }
    forall p, q | p in s.direct && q in s.direct && p != q ensures DirectsApart(s', p, q) { assert DirectsApart(s, p, q); }
  }

  lemma DownOwned(s: State, k: nat, t: nat, n: nat, orphans: set<nat>)
    requires Owned(s, orphans) && Binned(s) && Fresh(s, t, n) && k < |s.segs| && t !in s.chunks
    ensures var s' := ExtendedDown(s, k, t, n); Owned(s', orphans + {t}) && Binned(s')
  {
    var s' := ExtendedDown(s, k, t, n);
    assert t + CHUNK_OVERHEAD in s.live ==> PayloadOk(s, t + CHUNK_OVERHEAD);
    forall m | m in s.live ensures PayloadOk(s', m) { assert PayloadOk(s, m); }
    forall a | a in s'.chunks && s'.chunks[a].inuse ensures OwnerOk(s', a, orphans + {t}) { assert a != t ==> OwnerOk(s, a, orphans); }
    forall a: nat
      ensures a in s'.free <==> Binnable(s', a)
      ensures a in s'.free ==> s'.free[a] == s'.chunks[a].size
    {
      assert Binnable(s, a) <==> a in s.free;
    }
  }

  lemma DownTops(s: State, k: nat, t: nat, n: nat)
    requires TopAndVictim(s) && Fresh(s, t, n) && k < |s.segs| && t !in s.chunks && t + n == s.segs[k].base && Segments(s)
    ensures TopAndVictim(ExtendedDown(s, k, t, n))
  {
    var s' := ExtendedDown(s, k, t, n);
    assert SegOk(s, k);
    forall a | a in s'.chunks ensures RoleOk(s', a) { assert a != t ==> RoleOk(s, a); }
  }

  // ----- giving up top: its bytes become a free chunk and a segment record before a fence

  const RECORD_SIZE: nat := 48

  ghost function RecordAt(s: State): nat {
    if s.topsize < MIN_CHUNK_SIZE then s.top else s.top + s.topsize
  }

  ghost predicate Retired(s: State, s': State)
    requires s.top != 0 && TopAndVictim(s)
  {
    var p, z, g, r := s.top, s.topsize, s.segs[0], RecordAt(s);
    && (forall a :: a in s.head && (a < p || a >= g.base + g.size) ==> a in s'.head && s'.head[a] == s.head[a])
    && (forall a :: a in s.foot && a != r ==> a in s'.foot && s'.foot[a] == s.foot[a])
    && (r == p ==> r in s.foot ==> r in s'.foot && s'.foot[r] == s.foot[r])
    && r in s'.head && s'.head[r] == Head(RECORD_SIZE, true, r == p)
    && r + RECORD_SIZE in s'.head && s'.head[r + RECORD_SIZE].pinuse
    && (r != p ==> p in s'.head && s'.head[p] == Head(z, false, true) && r in s'.foot && s'.foot[r] == z)
    && s'.chunks == s.chunks[r := Chunk(RECORD_SIZE, true)]
    && s' == s.(head := s'.head, foot := s'.foot, chunks := s'.chunks, records := s.records + {r}, top := 0, topsize := 0,
                segs := s.segs[0 := Segment(g.base, g.size, r + RECORD_SIZE)],
                free := if r == p then s.free else s.free[p := z])
  }

  lemma RetiredInv(s: State, s': State, orphans: set<nat>)
    requires Inv(s, orphans) && s.top != 0 && Retired(s, s')
    ensures Inv(s', orphans)
  {
    TopPlace(s, orphans);
    NullFree(s);
    hide Layout, Calm, Tagged, Segments, Binned, Owned, TopPlaced, Retired;
    RetiredLayout(s, s');
    RetiredTags(s, s', orphans);
    RetiredSegments(s, s');
    RetiredOwned(s, s', orphans);
    RetiredBinned(s, s');
    RetiredTops(s, s');
  }

  /** Top is the last chunk of the first segment, and everything else is clear of it. */
  ghost predicate TopPlaced(s: State) {
    && s.top != 0 && TopAndVictim(s) && FreeFacts(s, s.top) && SegOk(s, 0) && Aligned(RecordAt(s)) && s.topsize >= ALIGNMENT
    && (forall a | a in s.chunks && a != s.top :: End(s.chunks, a) <= s.top || a >= s.segs[0].base + s.segs[0].size)
    && (forall k: nat | 0 < k < |s.segs| ::
         s.segs[k].base + s.segs[k].size <= s.segs[0].base || s.segs[k].base >= s.segs[0].base + s.segs[0].size)
    && (RecordAt(s) == s.top || RecordAt(s) !in s.chunks)
    && s.segs[0].base <= s.top
  }

  lemma TopPlace(s: State, orphans: set<nat>)
    requires Inv(s, orphans) && s.top != 0
    ensures TopPlaced(s)
  {
    var p, g := s.top, s.segs[0];
    assert SegOk(s, 0);
    FreeChunk(s, p, orphans);
    AlignedSum(p, s.topsize);
    forall k: nat | 0 < k < |s.segs|
      ensures s.segs[k].base + s.segs[k].size <= g.base || s.segs[k].base >= g.base + g.size
    {
      assert SegsApart(s.segs[0], s.segs[k]);
    }
    assert Placed(s.chunks, s.segs, p);
    TopInFirst(s, p);
    forall a | a in s.chunks && a != p
      ensures End(s.chunks, a) <= p || a >= g.base + g.size
    {
      assert Apart(s.chunks, a, p) && Apart(s.chunks, p, a);
      assert Placed(s.chunks, s.segs, a);
      var k: nat :| k < |s.segs| && s.segs[k].base <= a < s.segs[k].stop;
      assert SegOk(s, k);
    }
  }

  lemma TopInFirst(s: State, p: nat)
    requires Segments(s) && s.segs != [] && p in s.chunks && Placed(s.chunks, s.segs, p) && End(s.chunks, p) == s.segs[0].stop
    ensures s.segs[0].base <= p
  {
    var k: nat :| k < |s.segs| && s.segs[k].base <= p < s.segs[k].stop;
    assert SegOk(s, k) && SegOk(s, 0);
    if k != 0 {
      assert SegsApart(s.segs[0], s.segs[k]);
      assert End(s.chunks, p) <= s.segs[k].stop;
    }
  }

  lemma RetiredLayout(s: State, s': State)
    requires Layout(s.chunks, s.segs) && Calm(s.chunks) && Segments(s) && TopPlaced(s) && Retired(s, s')
    ensures Layout(s'.chunks, s'.segs) && Calm(s'.chunks)
  {
    hide Segments, TopPlaced, Retired;
    var c' := s'.chunks;
    forall a | a in c' ensures Placed(c', s'.segs, a) && CalmAt(c', a) { RetiredPlaced(s, s', a); RetiredApart(s, s', a, a); }
    forall a, b | a in c' && b in c' ensures Apart(c', a, b) { RetiredApart(s, s', a, b); }
  }

  lemma RetiredApart(s: State, s': State, a: nat, b: nat)
    requires Layout(s.chunks, s.segs) && Calm(s.chunks) && TopPlaced(s) && Retired(s, s') && a in s'.chunks && b in s'.chunks
    ensures Apart(s'.chunks, a, b) && CalmAt(s'.chunks, a)
  {
    hide Aligned, SegOk, RoleOk;
    var c, r := s.chunks, RecordAt(s);
    if a != r && b != r { assert Apart(c, a, b); }
    if a != r { assert CalmAt(c, a); }
  }

  lemma RetiredPlaced(s: State, s': State, a: nat)
    requires Layout(s.chunks, s.segs) && Segments(s) && TopPlaced(s) && Retired(s, s') && a in s'.chunks
    ensures Placed(s'.chunks, s'.segs, a)
  {
    hide Aligned, FreeFacts, RoleOk;
    var r := RecordAt(s);
    assert s'.segs[0].stop == r + RECORD_SIZE;
    RetiredStops(s, s');
    hide Segments;
    if a == r {
      assert s'.segs[0].base <= r < s'.segs[0].stop;
      assert Aligned(RECORD_SIZE) by { RecordAligned(); }
    } else {
      OtherPlaced(s, s', a);
    }
  }

  lemma OtherPlaced(s: State, s': State, a: nat)
    requires Layout(s.chunks, s.segs) && TopPlaced(s) && Retired(s, s') && a in s'.chunks && a != RecordAt(s)
    requires forall j: nat | 0 < j < |s.segs| :: s'.segs[j] == s.segs[j]
    ensures Placed(s'.chunks, s'.segs, a)
  {
    hide Aligned, FreeFacts, RoleOk, NoStop, IsStop, InSegment;
    assert Placed(s.chunks, s.segs, a);
    OtherInside(s, s', a);
    OtherNext(s, s', a);
  }

  lemma OtherInside(s: State, s': State, a: nat)
    requires TopPlaced(s) && Retired(s, s') && a in s.chunks && a != RecordAt(s) && Placed(s.chunks, s.segs, a)
    requires forall j: nat | 0 < j < |s.segs| :: s'.segs[j] == s.segs[j]
    ensures InSegment(s'.segs, a) && NoStop(s'.segs, a, End(s.chunks, a))
  {
    hide Aligned, FreeFacts, RoleOk, IsStop;
    var j: nat :| j < |s.segs| && s.segs[j].base <= a < s.segs[j].stop;
    assert s'.segs[j].base <= a < s'.segs[j].stop;
    forall i: nat | i < |s'.segs| ensures !(a <= s'.segs[i].stop < End(s.chunks, a)) {
      assert i != 0 ==> !(a <= s.segs[i].stop < End(s.chunks, a));
    }
  }

  lemma OtherNext(s: State, s': State, a: nat)
    requires TopPlaced(s) && Retired(s, s') && a in s.chunks && a != RecordAt(s) && Placed(s.chunks, s.segs, a)
    requires forall j: nat | 0 < j < |s.segs| :: s'.segs[j] == s.segs[j]
    ensures End(s.chunks, a) in s'.chunks || IsStop(s'.segs, End(s.chunks, a))
  {
    hide Aligned, FreeFacts, RoleOk, NoStop;
    if End(s.chunks, a) !in s.chunks && a != s.top {
      var i: nat :| i < |s.segs| && s.segs[i].stop == End(s.chunks, a);
      assert i != 0;
      assert s'.segs[i].stop == End(s.chunks, a);
    }
  }

  lemma RecordAligned()
    ensures Aligned(RECORD_SIZE)
  {
  }

  lemma RetiredStops(s: State, s': State)
    requires Segments(s) && TopPlaced(s) && Retired(s, s')
    ensures forall j: nat | 0 < j < |s.segs| :: s'.segs[j] == s.segs[j]
    ensures forall j: nat | 0 < j < |s.segs| :: s.segs[j].stop < s.segs[0].base || s.segs[j].stop > s.segs[0].base + s.segs[0].size
  {
    hide Aligned, FreeFacts, RoleOk;
    forall j: nat | 0 < j < |s.segs| ensures s.segs[j].stop < s.segs[0].base || s.segs[j].stop > s.segs[0].base + s.segs[0].size {
      assert SegOk(s, j);
    }
  }

  lemma RetiredTags(s: State, s': State, orphans: set<nat>)
    requires Inv(s, orphans) && TopPlaced(s) && Retired(s, s')
    ensures Tagged(s')
  {
    forall a | a in s'.chunks
      ensures TagOk(s', a)
    {
      if a in s.chunks && a != s.top {
        RetiredOldTag(s, s', a, orphans);
      } else {
        RetiredNewTag(s, s', a);
      }
    }
  }

  lemma RetiredOldTag(s: State, s': State, a: nat, orphans: set<nat>)
    requires Inv(s, orphans) && TopPlaced(s) && Retired(s, s') && a in s.chunks && a != s.top
    ensures a in s'.chunks && TagOk(s', a)
  {
    hide Segments, Owned, Binned, SegOk, RoleOk, Aligned;
    var c := s.chunks;
    assert TagOk(s, a) && Placed(c, s.segs, a) && CalmAt(c, a);
    if !s.head[a].pinuse {
      assert Placed(c, s.segs, a - s.foot[a]);
      BeforeNotTop(s, a - s.foot[a], a, orphans);
    }
    assert TagOk(s, s.top);
  }

  lemma RetiredNewTag(s: State, s': State, a: nat)
    requires Tagged(s) && TopPlaced(s) && Retired(s, s') && (a == s.top || a == RecordAt(s))
    ensures a in s'.chunks && TagOk(s', a)
  {
    hide RoleOk, SegOk, Aligned;
    assert TagOk(s, s.top);
  }

  lemma RetiredSegments(s: State, s': State)
    requires Segments(s) && TopPlaced(s) && Retired(s, s')
    ensures Segments(s')
  {
    hide FreeFacts, RoleOk;
    forall k: nat | k < |s'.segs| ensures SegOk(s', k) { RetiredSeg(s, s', k); }
    hide TopPlaced, Aligned, Paged;
    forall j: nat, k: nat | j < k < |s'.segs| ensures SegsApart(s'.segs[j], s'.segs[k]) { assert SegsApart(s.segs[j], s.segs[k]); }
    forall p | p in s.direct ensures DirectOk(s', p) { RetiredDirect(s, s', p); }
    forall k: nat, p | k < |s'.segs| && p in s.direct ensures DirectApart(s', k, p) { assert DirectApart(s, k, p); }
    forall p, q | p in s.direct && q in s.direct && p != q ensures DirectsApart(s', p, q) { assert DirectsApart(s, p, q); }
  }

  lemma RetiredSeg(s: State, s': State, k: nat)
    requires Segments(s) && TopPlaced(s) && Retired(s, s') && k < |s.segs|
    ensures |s'.segs| == |s.segs| && SegOk(s', k)
  {
    RecordAligned();
    AlignedSum(RecordAt(s), RECORD_SIZE);
    hide FreeFacts, RoleOk, Aligned, Paged;
    assert SegOk(s, k);
  }

  lemma RetiredDirect(s: State, s': State, p: nat)
    requires Segments(s) && TopPlaced(s) && Retired(s, s') && p in s.direct
    ensures p in s'.direct && DirectOk(s', p)
  {
    hide RoleOk, Aligned, Paged;
    assert DirectOk(s, p) && DirectApart(s, 0, p);
  }

  lemma RetiredOwned(s: State, s': State, orphans: set<nat>)
    requires Inv(s, orphans) && TopPlaced(s) && Retired(s, s')
    ensures Owned(s', orphans)
  {
    var r := RecordAt(s);
    NullFree(s);
    NotDirect(s, 0, r);
    hide Layout, Calm, Tagged, Segments, Aligned, Binned;
    assert r + CHUNK_OVERHEAD in s.live ==> PayloadOk(s, r + CHUNK_OVERHEAD);
    forall m | m in s.live ensures PayloadOk(s', m) { assert PayloadOk(s, m); }
    forall a | a in s'.chunks && s'.chunks[a].inuse ensures OwnerOk(s', a, orphans) { assert a != r ==> OwnerOk(s, a, orphans); }
  }

  lemma RetiredBinned(s: State, s': State)
    requires Binned(s) && TopPlaced(s) && Retired(s, s') && 0 !in s.chunks
    ensures Binned(s')
  {
    var r := RecordAt(s);
    forall a: nat
      ensures a in s'.free <==> Binnable(s', a)
      ensures a in s'.free ==> s'.free[a] == s'.chunks[a].size
    {
      assert Binnable(s, a) <==> a in s.free;
      assert Binnable(s, r) <==> r in s.free;
    }
  }

  lemma RetiredTops(s: State, s': State)
    requires TopPlaced(s) && Retired(s, s') && 0 !in s.chunks
    ensures TopAndVictim(s')
  {
    forall a | a in s'.chunks ensures RoleOk(s', a) { assert a in s.chunks ==> RoleOk(s, a); }
  }

  // ----- a new segment that is all top

  ghost function WithTop(s: State, t: nat, n: nat): State
    requires n > TOP_FOOT_SIZE
  {
    var z := n - TOP_FOOT_SIZE;
    s.(segs := [Segment(t, n, t + z)] + s.segs, chunks := s.chunks[t := Chunk(z, false)],
       head := s.head[t := Head(z, false, true)][t + z := Head(TOP_FOOT_SIZE, false, false)], top := t, topsize := z)
  }

  lemma WithTopInv(s: State, t: nat, n: nat, orphans: set<nat>)
    requires Inv(s, orphans) && s.top == 0 && Fresh(s, t, n) && n >= TOP_FOOT_SIZE + ALIGNMENT
    ensures Inv(WithTop(s, t, n), orphans)
  {
    forall a | a in s.chunks ensures a != t { ClearOf(s, t, n, a); }
    NullFree(s);
    hide Layout, Calm, Tagged, Segments, Binned, Owned;
    WithTopLayout(s, t, n);
    WithTopTags(s, t, n);
    WithTopSegments(s, t, n);
    WithTopOwned(s, t, n, orphans);
    WithTopRoles(s, t, n);
  }

  lemma WithTopPlaced(s: State, t: nat, n: nat, a: nat)
    requires Layout(s.chunks, s.segs) && Segments(s) && Fresh(s, t, n) && n >= TOP_FOOT_SIZE + ALIGNMENT
    requires a == t || a in s.chunks
    ensures Placed(WithTop(s, t, n).chunks, WithTop(s, t, n).segs, a)
  {
    PageAligned(t);
    PageAligned(n);
    hide Paged, Aligned;
    var s' := WithTop(s, t, n);
    var z: nat := n - TOP_FOOT_SIZE;
    assert s'.segs[0].stop == t + z;
    if a == t {
      assert s'.segs[0].base <= t < s'.segs[0].stop;
      forall j: nat | j < |s'.segs| ensures !(t <= s'.segs[j].stop < t + z) {
        if j > 0 {
          assert SegOk(s, j - 1) && s'.segs[j] == s.segs[j - 1];
          assert Disjoint(s.segs[j - 1].base, s.segs[j - 1].size, t, n);
        }
      }
    } else {
      ClearOf(s, t, n, a);
      hide Aligned;
      assert Placed(s.chunks, s.segs, a);
      var j: nat :| j < |s.segs| && s.segs[j].base <= a < s.segs[j].stop;
      assert s'.segs[j + 1] == s.segs[j];
      if End(s.chunks, a) !in s.chunks {
        var i: nat :| i < |s.segs| && s.segs[i].stop == End(s.chunks, a);
        assert s'.segs[i + 1] == s.segs[i];
      }
      forall i: nat | i < |s'.segs| ensures !(a <= s'.segs[i].stop < End(s.chunks, a)) {
        assert i > 0 ==> s'.segs[i] == s.segs[i - 1];
      }
    }
  }

  lemma WithTopLayout(s: State, t: nat, n: nat)
    requires Layout(s.chunks, s.segs) && Calm(s.chunks) && Segments(s) && Fresh(s, t, n) && n >= TOP_FOOT_SIZE + ALIGNMENT
    requires t !in s.chunks
    ensures var s' := WithTop(s, t, n); Layout(s'.chunks, s'.segs) && Calm(s'.chunks)
  {
    hide Aligned, Segments, Fresh;
    var s' := WithTop(s, t, n);
    var c' := s'.chunks;
    forall a | a in c' ensures Placed(c', s'.segs, a) { WithTopPlaced(s, t, n, a); }
    hide WithTop;
    forall a, b | a in c' && b in c' ensures Apart(c', a, b) { WithTopApart(s, t, n, a, b); }
    forall a | a in c' ensures CalmAt(c', a) { WithTopApart(s, t, n, a, a); }
  }

  lemma WithTopApart(s: State, t: nat, n: nat, a: nat, b: nat)
    requires Layout(s.chunks, s.segs) && Calm(s.chunks) && Segments(s) && Fresh(s, t, n) && n >= TOP_FOOT_SIZE + ALIGNMENT
    requires t !in s.chunks && a in WithTop(s, t, n).chunks && b in WithTop(s, t, n).chunks
    ensures Apart(WithTop(s, t, n).chunks, a, b) && CalmAt(WithTop(s, t, n).chunks, a)
  {
    var c, z := s.chunks, n - TOP_FOOT_SIZE;
    forall x | x in c ensures if x < t then End(c, x) < t else t + n <= x { ClearOf(s, t, n, x); }
    hide Fresh, Segments;
    if a != t { assert CalmAt(c, a); }
    if a != t && b != t { assert Apart(c, a, b); }
  }

  lemma WithTopTags(s: State, t: nat, n: nat)
    requires Layout(s.chunks, s.segs) && Tagged(s) && Segments(s) && Fresh(s, t, n) && n >= TOP_FOOT_SIZE + ALIGNMENT
    requires t !in s.chunks && s.top == 0 && 0 !in s.chunks
    ensures Tagged(WithTop(s, t, n))
  {
    hide Layout, Segments, Fresh, Aligned;
    var s' := WithTop(s, t, n);
    forall a | a in s'.chunks
      ensures TagOk(s', a)
    {
      if a != t {
        assert TagOk(s, a);
        ClearOf(s, t, n, a);
        if !s.head[a].pinuse { ClearOf(s, t, n, a - s.foot[a]); }
      }
    }
  }

  lemma WithTopSegments(s: State, t: nat, n: nat)
    requires Segments(s) && Layout(s.chunks, s.segs) && Fresh(s, t, n) && n >= TOP_FOOT_SIZE + ALIGNMENT
    ensures Segments(WithTop(s, t, n))
  {
    var z: nat := n - TOP_FOOT_SIZE;
    PageAligned(t);
    PageAligned(n);
    AlignedSum(t, z);
    hide Paged, Aligned;
    var s' := WithTop(s, t, n);
    forall k: nat | k < |s'.segs| ensures SegOk(s', k) {
      if k > 0 {
        assert SegOk(s, k - 1) && s'.segs[k] == s.segs[k - 1];
        assert Disjoint(s.segs[k - 1].base, s.segs[k - 1].size, t, n);
      } else {
        if t + z in s.chunks { ClearOf(s, t, n, t + z); }
      }
    }
    forall j: nat, k: nat | j < k < |s'.segs| ensures SegsApart(s'.segs[j], s'.segs[k]) {
      assert s'.segs[k] == s.segs[k - 1];
      if j > 0 {
        assert s'.segs[j] == s.segs[j - 1];
        assert SegsApart(s.segs[j - 1], s.segs[k - 1]);
      } else {
        assert Disjoint(s.segs[k - 1].base, s.segs[k - 1].size, t, n);
      }
    }
    forall p | p in s.direct ensures DirectOk(s', p) {
      assert DirectOk(s, p);
      assert Disjoint(p, s.direct[p], t, n);
    }
    forall k: nat, p | k < |s'.segs| && p in s.direct ensures DirectApart(s', k, p) {
      if k > 0 { assert s'.segs[k] == s.segs[k - 1]; assert DirectApart(s, k - 1, p); }
      assert Disjoint(p, s.direct[p], t, n);
    }
    forall p, q | p in s.direct && q in s.direct && p != q ensures DirectsApart(s', p, q) { assert DirectsApart(s, p, q); }
  }

  lemma WithTopOwned(s: State, t: nat, n: nat, orphans: set<nat>)
    requires Owned(s, orphans) && Binned(s) && s.top == 0 && t !in s.chunks && 0 !in s.chunks && n > TOP_FOOT_SIZE && s.dv != t
    ensures var s' := WithTop(s, t, n); Owned(s', orphans) && Binned(s')
  {
    var s' := WithTop(s, t, n);
    forall m | m in s.live ensures PayloadOk(s', m) { assert PayloadOk(s, m); }
    forall a | a in s'.chunks && s'.chunks[a].inuse ensures OwnerOk(s', a, orphans) { assert OwnerOk(s, a, orphans); }
    forall a: nat
      ensures a in s'.free <==> Binnable(s', a)
      ensures a in s'.free ==> s'.free[a] == s'.chunks[a].size
    {
      assert Binnable(s, a) <==> a in s.free;
    }
  }

  lemma WithTopRoles(s: State, t: nat, n: nat)
    requires TopAndVictim(s) && s.top == 0 && t !in s.chunks && 0 !in s.chunks && n > TOP_FOOT_SIZE && t > 0
    ensures TopAndVictim(WithTop(s, t, n))
  {
    var s' := WithTop(s, t, n);
    forall a | a in s'.chunks ensures RoleOk(s', a) { assert a != t ==> RoleOk(s, a); }
  }

  // ----- growing top upwards

  ghost function ExtendedUp(s: State, n: nat): State
    requires s.segs != []
  {
    var g, z := s.segs[0], s.topsize + n;
    s.(segs := s.segs[0 := Segment(g.base, g.size + n, g.stop + n)], chunks := s.chunks[s.top := Chunk(z, false)],
       head := s.head[s.top := Head(z, false, true)][s.top + z := Head(TOP_FOOT_SIZE, false, false)], topsize := z)
  }

  lemma ExtendedUpInv(s: State, n: nat, orphans: set<nat>)
    requires Inv(s, orphans) && s.top != 0 && Fresh(s, s.segs[0].base + s.segs[0].size, n)
    ensures Inv(ExtendedUp(s, n), orphans)
  {
    TopPlace(s, orphans);
    hide Layout, Calm, Tagged, Segments, Binned, Owned, TopPlaced, Fresh;
    UpLayout(s, n);
    UpTags(s, n);
    UpSegments(s, n);
    UpOwned(s, n, orphans);
    UpTops(s, n);
  }

  /** The stops and bases of other segments and the direct mappings are clear of the grown segment. */
  lemma UpClear(s: State, n: nat)
    requires Segments(s) && TopPlaced(s) && Fresh(s, s.segs[0].base + s.segs[0].size, n)
    ensures forall k: nat | 0 < k < |s.segs| ::
      s.segs[k].base + s.segs[k].size <= s.segs[0].base || s.segs[k].base >= s.segs[0].base + s.segs[0].size + n
    ensures forall k: nat | 0 < k < |s.segs| :: s.segs[k].base < s.segs[k].stop < s.segs[k].base + s.segs[k].size
  {
    hide Paged, Aligned, FreeFacts;
    var g := s.segs[0];
    forall k: nat | 0 < k < |s.segs|
      ensures s.segs[k].base + s.segs[k].size <= g.base || s.segs[k].base >= g.base + g.size + n
      ensures s.segs[k].base < s.segs[k].stop < s.segs[k].base + s.segs[k].size
    {
      assert SegOk(s, k);
      assert Disjoint(s.segs[k].base, s.segs[k].size, g.base + g.size, n);
    }
  }

  lemma UpPlaced(s: State, n: nat, a: nat)
    requires Layout(s.chunks, s.segs) && Segments(s) && TopPlaced(s) && Fresh(s, s.segs[0].base + s.segs[0].size, n)
    requires a in s.chunks
    ensures Placed(ExtendedUp(s, n).chunks, ExtendedUp(s, n).segs, a)
  {
    hide Aligned, Paged;
    UpClear(s, n);
    PageAligned(n);
    AlignedSum(s.topsize, n);
    assert Placed(s.chunks, s.segs, a);
    UpNext(s, n, a);
    UpNoStop(s, n, a);
    UpInside(s, n, a);
    hide Fresh, Segments, Layout, FreeFacts, TopAndVictim, NoStop, IsStop, InSegment;
  }

  lemma UpInside(s: State, n: nat, a: nat)
    requires s.segs != [] && InSegment(s.segs, a)
    ensures InSegment(ExtendedUp(s, n).segs, a)
  {
    var s' := ExtendedUp(s, n);
    var j: nat :| j < |s.segs| && s.segs[j].base <= a < s.segs[j].stop;
    assert s'.segs[j].base <= a < s'.segs[j].stop;
  }

  /** A chunk still borders a chunk or a stop. */
  lemma UpNext(s: State, n: nat, a: nat)
    requires TopPlaced(s) && a in s.chunks && Placed(s.chunks, s.segs, a)
    ensures var s' := ExtendedUp(s, n); End(s'.chunks, a) in s'.chunks || IsStop(s'.segs, End(s'.chunks, a))
  {
    hide Aligned, FreeFacts, NoStop, RoleOk;
    var s' := ExtendedUp(s, n);
    if a == s.top {
      assert s'.segs[0].stop == End(s'.chunks, a);
    } else if End(s.chunks, a) !in s.chunks {
      var i: nat :| i < |s.segs| && s.segs[i].stop == End(s.chunks, a);
      assert i != 0;
      assert s'.segs[i].stop == End(s'.chunks, a);
    }
  }

  lemma UpNoStop(s: State, n: nat, a: nat)
    requires TopPlaced(s) && a in s.chunks && Placed(s.chunks, s.segs, a)
    requires Segments(s) && Fresh(s, s.segs[0].base + s.segs[0].size, n)
    ensures NoStop(ExtendedUp(s, n).segs, a, End(ExtendedUp(s, n).chunks, a))
  {
    hide Aligned, Paged, FreeFacts, RoleOk, IsStop, Fresh, Segments;
    UpClear(s, n);
    var s' := ExtendedUp(s, n);
    var j: nat :| j < |s.segs| && s.segs[j].base <= a < s.segs[j].stop;
    forall i: nat | i < |s'.segs| ensures !(a <= s'.segs[i].stop < End(s'.chunks, a)) {
      assert !(a <= s.segs[i].stop < End(s.chunks, a));
    }
  }

  lemma UpLayout(s: State, n: nat)
    requires Layout(s.chunks, s.segs) && Calm(s.chunks) && Segments(s) && TopPlaced(s)
    requires Fresh(s, s.segs[0].base + s.segs[0].size, n)
    ensures var s' := ExtendedUp(s, n); Layout(s'.chunks, s'.segs) && Calm(s'.chunks)
  {
    var s' := ExtendedUp(s, n);
    var c' := s'.chunks;
    forall a | a in c' ensures Placed(c', s'.segs, a) { UpPlaced(s, n, a); }
    hide Fresh, Segments, TopPlaced, ExtendedUp;
    forall a, b | a in c' && b in c' ensures Apart(c', a, b) { UpApart(s, n, a, b); }
    forall a | a in c' ensures CalmAt(c', a) { UpApart(s, n, a, a); }
  }

  lemma UpApart(s: State, n: nat, a: nat, b: nat)
    requires Layout(s.chunks, s.segs) && Calm(s.chunks) && Segments(s) && TopPlaced(s)
    requires Fresh(s, s.segs[0].base + s.segs[0].size, n) && a in ExtendedUp(s, n).chunks && b in ExtendedUp(s, n).chunks
    ensures Apart(ExtendedUp(s, n).chunks, a, b) && CalmAt(ExtendedUp(s, n).chunks, a)
  {
    var g, c := s.segs[0], s.chunks;
    ClearOf(s, g.base + g.size, n, a);
    ClearOf(s, g.base + g.size, n, b);
    if s.top + s.topsize + n in c { ClearOf(s, g.base + g.size, n, s.top + s.topsize + n); }
    assert Apart(c, a, b) && Apart(c, s.top, b);
    assert CalmAt(c, a);
  }

  lemma UpTags(s: State, n: nat)
    requires Layout(s.chunks, s.segs) && Tagged(s) && Segments(s) && TopPlaced(s) && Fresh(s, s.segs[0].base + s.segs[0].size, n)
    ensures Tagged(ExtendedUp(s, n))
  {
    var s', g := ExtendedUp(s, n), s.segs[0];
    var c := s.chunks;
    forall a | a in c
      ensures TagOk(s', a)
    {
      assert TagOk(s, a);
      ClearOf(s, g.base + g.size, n, a);
      if !s.head[a].pinuse { assert a - s.foot[a] in c; }
    }
  }

  lemma UpSegments(s: State, n: nat)
    requires Segments(s) && TopPlaced(s) && Fresh(s, s.segs[0].base + s.segs[0].size, n) && Layout(s.chunks, s.segs)
    ensures Segments(ExtendedUp(s, n))
  {
    var s' := ExtendedUp(s, n);
    UpClear(s, n);
    forall k: nat | k < |s'.segs| ensures SegOk(s', k) { UpSegOk(s, n, k); }
    forall p | p in s.direct ensures DirectOk(s', p) && forall k: nat | k < |s'.segs| :: DirectApart(s', k, p) {
      UpDirect(s, n, p);
    }
    hide Paged, Aligned, SegOk, DirectOk, Layout, Fresh;
    forall j: nat, k: nat | j < k < |s'.segs| ensures SegsApart(s'.segs[j], s'.segs[k]) { assert SegsApart(s.segs[j], s.segs[k]); }
    forall p, q | p in s.direct && q in s.direct && p != q ensures DirectsApart(s', p, q) { assert DirectsApart(s, p, q); }
  }

  lemma UpSegOk(s: State, n: nat, k: nat)
    requires Segments(s) && TopPlaced(s) && Fresh(s, s.segs[0].base + s.segs[0].size, n) && Layout(s.chunks, s.segs)
    requires k < |s.segs|
    ensures SegOk(ExtendedUp(s, n), k)
  {
    hide Paged, Aligned;
    var g := s.segs[0];
    UpClear(s, n);
    assert SegOk(s, k) && SegOk(s, 0);
    PagedSum(g.size, n);
    PageAligned(n);
    AlignedSum(g.stop, n);
    assert s.top + s.topsize + n in s.chunks ==> s.top + s.topsize + n >= g.base + g.size + n by {
      if s.top + s.topsize + n in s.chunks { ClearOf(s, g.base + g.size, n, s.top + s.topsize + n); }
    }
  }

  lemma UpDirect(s: State, n: nat, p: nat)
    requires Segments(s) && TopPlaced(s) && Fresh(s, s.segs[0].base + s.segs[0].size, n) && p in s.direct
    ensures DirectOk(ExtendedUp(s, n), p) && forall k: nat | k < |s.segs| :: DirectApart(ExtendedUp(s, n), k, p)
  {
    hide Paged, Aligned, FreeFacts;
    var g := s.segs[0];
    assert DirectOk(s, p) && DirectApart(s, 0, p);
    assert Disjoint(p, s.direct[p], g.base + g.size, n);
    forall k: nat | k < |s.segs| ensures DirectApart(ExtendedUp(s, n), k, p) { assert DirectApart(s, k, p); }
  }

  lemma UpOwned(s: State, n: nat, orphans: set<nat>)
    requires Owned(s, orphans) && Binned(s) && TopPlaced(s)
    ensures Owned(ExtendedUp(s, n), orphans) && Binned(ExtendedUp(s, n))
  {
    var s' := ExtendedUp(s, n);
    forall m | m in s.live ensures PayloadOk(s', m) { assert PayloadOk(s, m); }
    forall a | a in s'.chunks && s'.chunks[a].inuse ensures OwnerOk(s', a, orphans) { assert OwnerOk(s, a, orphans); }
    forall a: nat
      ensures a in s'.free <==> Binnable(s', a)
      ensures a in s'.free ==> s'.free[a] == s'.chunks[a].size
    {
      assert Binnable(s, a) <==> a in s.free;
    }
  }

  lemma UpTops(s: State, n: nat)
    requires TopPlaced(s)
    ensures TopAndVictim(ExtendedUp(s, n))
  {
    var s' := ExtendedUp(s, n);
    forall a | a in s'.chunks ensures RoleOk(s', a) { assert RoleOk(s, a); }
  }
}
