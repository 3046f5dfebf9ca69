/** The two ways the allocator re-tiles: merging a run of chunks into one, or cutting it in two. */
module HeapSteps {
  import opened HeapShape
  import opened HeapPatch

  /** The chunks at xs follow one another and end at hi. */
  ghost predicate Run(c: Chunks, xs: seq<nat>, hi: nat) {
    && xs != [] && xs[0] in c
    && (if |xs| == 1 then End(c, xs[0]) == hi else End(c, xs[0]) == xs[1] && Run(c, xs[1..], hi))
  }

  lemma {:induction false} RunStretch(s: State, xs: seq<nat>, hi: nat)
    requires Layout(s.chunks, s.segs) && Run(s.chunks, xs, hi) && (hi in s.chunks || IsStop(s.segs, hi))
    ensures Stretch(s, xs[0], hi)
    ensures forall a | a in s.chunks && xs[0] <= a < hi :: a in xs
    ensures forall a | a in xs :: a in s.chunks && xs[0] <= a < hi
    decreases |xs|
  {
    var c, x := s.chunks, xs[0];
    assert Placed(c, s.segs, x);
    assert xs == [x] + xs[1..];
    if |xs| > 1 {
      RunStretch(s, xs[1..], hi);
      assert xs[1..][0] == xs[1];
    }
    forall a | a in c && x <= a < hi
      ensures a in xs
    {
      assert Apart(c, x, a);
      if |xs| > 1 && a != x { assert a in xs[1..]; }
    }
  }

  /** Only head and foot words from lo to hi change; the chunk at hi keeps its size and status. */
  ghost predicate Local(s: State, s': State, lo: nat, hi: nat) {
    && (forall a :: a in s.head && (a < lo || a > hi) ==> a in s'.head && s'.head[a] == s.head[a])
    && (forall a :: a in s.foot && (a <= lo || a > hi) ==> a in s'.foot && s'.foot[a] == s.foot[a])
    && lo in s.head && lo in s'.head && hi in s'.head
    && (hi in s.chunks ==> hi in s.head && SameButPinuse(s.head[hi], s'.head[hi]))
    && s'.segs == s.segs && s'.direct == s.direct && s'.records == s.records && s'.live == s.live
  }

  /** Top and the designated victim change only inside the stretch. */
  ghost predicate Moved(s: State, s': State, lo: nat, hi: nat) {
    && (s'.top == s.top || (lo <= s.top < hi && lo <= s'.top < hi))
    && (s'.dv == s.dv || ((s.dv == 0 || lo <= s.dv < hi) && (s'.dv == 0 || lo <= s'.dv < hi)))
  }

  /** Nobody owns the chunks at xs, except as orphans. */
  ghost predicate Unowned(s: State, xs: seq<nat>) {
    forall a | a in xs :: a !in s.records && a + CHUNK_OVERHEAD !in s.live
  }

  /** The bins outside xs are as before. */
  ghost predicate BinsOutside(s: State, s': State, xs: seq<nat>) {
    forall a: nat {:trigger a in s'.free} :: a !in xs ==> (a in s'.free <==> a in s.free) && (a in s.free ==> s'.free[a] == s.free[a])
  }

  ghost function One(lo: nat, hi: nat, u: bool): Chunks
    requires lo < hi
  {
    map[lo := Chunk(hi - lo, u)]
  }

  ghost function Two(lo: nat, mid: nat, hi: nat, u: bool, v: bool): Chunks
    requires lo < mid < hi
  {
    map[lo := Chunk(mid - lo, u), mid := Chunk(hi - mid, v)]
  }

  // ----- one chunk

  ghost predicate Merge(s: State, s': State, xs: seq<nat>, hi: nat, u: bool)
    requires xs != [] && xs[0] < hi
  {
    var lo := xs[0];
    && Run(s.chunks, xs, hi) && (hi in s.chunks || IsStop(s.segs, hi))
    && s'.chunks == Patched(s.chunks, lo, hi, One(lo, hi, u))
    && Local(s, s', lo, hi) && Moved(s, s', lo, hi)
    && s'.head[lo] == Head(hi - lo, u, s.head[lo].pinuse) && s'.head[hi].pinuse == u
    && (!u && lo != s'.top ==> hi in s'.foot && s'.foot[hi] == hi - lo)
  }

  /** Merging a run of chunks into one keeps the invariant. */
  lemma MergeInv(s: State, s': State, xs: seq<nat>, hi: nat, u: bool, orphans: set<nat>, orphans': set<nat>)
    requires Inv(s, orphans) && xs != [] && xs[0] < hi && Merge(s, s', xs, hi, u)
    requires Unowned(s, xs) && BinsOutside(s, s', xs)
    requires forall a :: a in orphans' <==> (a in orphans && a !in xs) || (a == xs[0] && u)
    requires !u ==> s.head[xs[0]].pinuse && (hi in s.chunks ==> s.chunks[hi].inuse)
    requires forall a | a in xs :: a in s'.free <==> a == xs[0] && !u && a != s'.dv && a != s'.top
    requires xs[0] in s'.free ==> s'.free[xs[0]] == hi - xs[0]
    requires NewTops(s, s', xs[0], hi, One(xs[0], hi, u))
    ensures Inv(s', orphans')
  {
    var lo := xs[0];
    var n: Chunks := One(lo, hi, u);
    InvParts(s, orphans);
    hide One, Inv, Merge, Layout, Calm, Tagged, Segments, TopAndVictim, Binned, Owned, Patch, NewCalm, NewTops, Run;
    hide Stretch, NewBins, NewOwners, BinsOutside, Unowned;
    MergeRun(s, s', xs, hi, u);
    RunStretch(s, xs, hi);
    MergePatch(s, s', xs, hi, u);
    MergeBins(s, s', xs, hi, u);
    MergeOwners(s, xs, hi, u, orphans, orphans');
    PatchInv(s, s', lo, hi, n, orphans, orphans');
  }

  lemma InvParts(s: State, orphans: set<nat>)
    requires Inv(s, orphans)
    ensures Layout(s.chunks, s.segs) && Binned(s) && Owned(s, orphans)
  {
  }

  lemma MergeRun(s: State, s': State, xs: seq<nat>, hi: nat, u: bool)
    requires xs != [] && xs[0] < hi && Merge(s, s', xs, hi, u)
    ensures Run(s.chunks, xs, hi) && (hi in s.chunks || IsStop(s.segs, hi))
  {
  }

  lemma MergePatch(s: State, s': State, xs: seq<nat>, hi: nat, u: bool)
    requires Layout(s.chunks, s.segs) && xs != [] && xs[0] < hi && Merge(s, s', xs, hi, u) && Stretch(s, xs[0], hi)
    requires !u ==> s.head[xs[0]].pinuse && (hi in s.chunks ==> s.chunks[hi].inuse)
    ensures Patch(s, s', xs[0], hi, One(xs[0], hi, u))
    ensures NewCalm(s, xs[0], hi, One(xs[0], hi, u))
  {
    hide Stretch, Patched;
    var lo := xs[0];
    MergeTiles(s, xs, hi, u);
    assert NewTag(s', One(lo, hi, u), lo, lo);
  }

  /** The bins agree with the new chunks when they do so at the starts of the run and of the new chunks. */
  lemma RunBins(s: State, s': State, ys: seq<nat>, lo: nat, hi: nat, n: Chunks)
    requires Binned(s) && BinsOutside(s, s', ys)
    requires forall a | a in s.chunks && lo <= a < hi :: a in ys
    requires forall a | a in ys :: lo <= a < hi
    requires forall a | a in n :: a in ys
    requires forall a: nat | a in ys ::
      (a in s'.free <==> a in n && !n[a].inuse && a != s'.dv && a != s'.top) && (a in s'.free ==> s'.free[a] == n[a].size)
    ensures NewBins(s, s', lo, hi, n)
  {
    forall a: nat
      ensures !(lo <= a < hi) ==> (a in s'.free <==> a in s.free) && (a in s.free ==> s'.free[a] == s.free[a])
      ensures lo <= a < hi ==> (a in s'.free <==> a in n && !n[a].inuse && a != s'.dv && a != s'.top)
      ensures lo <= a < hi && a in s'.free ==> s'.free[a] == n[a].size
    {
      if a !in ys { assert Binnable(s, a) <==> a in s.free; }
    }
  }

  lemma MergeBins(s: State, s': State, xs: seq<nat>, hi: nat, u: bool)
    requires Binned(s) && BinsOutside(s, s', xs) && xs != [] && xs[0] < hi
    requires forall a | a in s.chunks && xs[0] <= a < hi :: a in xs
    requires forall a | a in xs :: xs[0] <= a < hi
    requires forall a | a in xs :: a in s'.free <==> a == xs[0] && !u && a != s'.dv && a != s'.top
    requires xs[0] in s'.free ==> s'.free[xs[0]] == hi - xs[0]
    ensures NewBins(s, s', xs[0], hi, One(xs[0], hi, u))
  {
    hide Binned, BinsOutside, NewBins;
    var n: Chunks := One(xs[0], hi, u);
    RunBins(s, s', xs, xs[0], hi, n);
  }

  lemma CutBins(s: State, s': State, xs: seq<nat>, mid: nat, hi: nat, u: bool, v: bool)
    requires Binned(s) && xs != [] && xs[0] < mid < hi && BinsOutside(s, s', xs + [mid])
    requires forall a | a in s.chunks && xs[0] <= a < hi :: a in xs
    requires forall a | a in xs :: xs[0] <= a < hi
    requires forall a | a in xs || a == mid ::
      a in s'.free <==> ((a == xs[0] && !u) || (a == mid && !v)) && a != s'.dv && a != s'.top
    requires xs[0] in s'.free ==> s'.free[xs[0]] == mid - xs[0]
    requires mid in s'.free ==> s'.free[mid] == hi - mid
    ensures NewBins(s, s', xs[0], hi, Two(xs[0], mid, hi, u, v))
  {
    hide Binned, BinsOutside, NewBins;
    var n: Chunks := Two(xs[0], mid, hi, u, v);
    RunBins(s, s', xs + [mid], xs[0], hi, n);
  }

  lemma MergeOwners(s: State, xs: seq<nat>, hi: nat, u: bool, orphans: set<nat>, orphans': set<nat>)
    requires Owned(s, orphans) && Unowned(s, xs) && xs != [] && xs[0] < hi
    requires forall a | a in s.chunks && xs[0] <= a < hi :: a in xs
    requires forall a | a in xs :: xs[0] <= a < hi
    requires forall a :: a in orphans' <==> (a in orphans && a !in xs) || (a == xs[0] && u)
    ensures NewOwners(s, xs[0], hi, One(xs[0], hi, u), orphans, orphans')
  {
    assert xs[0] in xs;
  }

  lemma CutOwners(s: State, xs: seq<nat>, mid: nat, hi: nat, u: bool, v: bool, orphans: set<nat>, orphans': set<nat>)
    requires Owned(s, orphans) && Unowned(s, xs) && xs != [] && xs[0] < mid < hi && mid + CHUNK_OVERHEAD !in s.live
    requires forall a | a in s.chunks && xs[0] <= a < hi :: a in xs
    requires forall a | a in xs :: xs[0] <= a < hi
    requires forall a :: a in orphans' <==> (a in orphans && a !in xs) || (a == xs[0] && u) || (a == mid && v)
    ensures NewOwners(s, xs[0], hi, Two(xs[0], mid, hi, u, v), orphans, orphans')
  {
    assert forall a | a in Two(xs[0], mid, hi, u, v) :: a == xs[0] || a == mid;
    assert xs[0] in xs;
  }

  lemma {:induction false} RunAligned(s: State, xs: seq<nat>, hi: nat)
    requires Layout(s.chunks, s.segs) && Run(s.chunks, xs, hi)
    ensures Aligned(xs[0]) && Aligned(hi) && xs[0] < hi
    decreases |xs|
  {
    assert Placed(s.chunks, s.segs, xs[0]);
    if |xs| > 1 { RunAligned(s, xs[1..], hi); }
  }

  lemma MergeTiles(s: State, xs: seq<nat>, hi: nat, u: bool)
    requires Layout(s.chunks, s.segs) && Run(s.chunks, xs, hi) && xs[0] < hi
    ensures NewTiles(One(xs[0], hi, u), xs[0], hi)
  {
    RunAligned(s, xs, hi);
    var n: Chunks := One(xs[0], hi, u);
    assert NewTile(n, xs[0], hi, xs[0]);
  }

  // ----- two chunks

  ghost predicate Cut(s: State, s': State, xs: seq<nat>, mid: nat, hi: nat, u: bool, v: bool)
    requires xs != [] && xs[0] < mid < hi
  {
    var lo := xs[0];
    && Run(s.chunks, xs, hi) && (hi in s.chunks || IsStop(s.segs, hi)) && Aligned(mid)
    && s'.chunks == Patched(s.chunks, lo, hi, Two(lo, mid, hi, u, v))
    && Local(s, s', lo, hi) && Moved(s, s', lo, hi)
    && s'.head[lo] == Head(mid - lo, u, s.head[lo].pinuse) && s'.head[hi].pinuse == v
    && mid in s'.head && s'.head[mid] == Head(hi - mid, v, u)
    && (!u && lo != s'.top ==> mid in s'.foot && s'.foot[mid] == mid - lo)
    && (!v && mid != s'.top ==> hi in s'.foot && s'.foot[hi] == hi - mid)
  }

  /** Cutting a run of chunks in two keeps the invariant. */
  lemma CutInv(s: State, s': State, xs: seq<nat>, mid: nat, hi: nat, u: bool, v: bool, orphans: set<nat>, orphans': set<nat>)
    requires Inv(s, orphans) && xs != [] && xs[0] < mid < hi && Cut(s, s', xs, mid, hi, u, v)
    requires Unowned(s, xs) && mid + CHUNK_OVERHEAD !in s.live && BinsOutside(s, s', xs + [mid])
    requires forall a :: a in orphans' <==> (a in orphans && a !in xs) || (a == xs[0] && u) || (a == mid && v)
    requires !u ==> v && xs[0] != s'.top && s.head[xs[0]].pinuse
    requires !v ==> u && (hi in s.chunks ==> s.chunks[hi].inuse)
    requires forall a | a in xs || a == mid ::
      a in s'.free <==> ((a == xs[0] && !u) || (a == mid && !v)) && a != s'.dv && a != s'.top
    requires xs[0] in s'.free ==> s'.free[xs[0]] == mid - xs[0]
    requires mid in s'.free ==> s'.free[mid] == hi - mid
    requires NewTops(s, s', xs[0], hi, Two(xs[0], mid, hi, u, v))
    ensures Inv(s', orphans')
  {
    var lo := xs[0];
    var n: Chunks := Two(lo, mid, hi, u, v);
    InvParts(s, orphans);
    hide Two, Inv, Cut, Layout, Calm, Tagged, Segments, TopAndVictim, Binned, Owned, Patch, NewCalm, NewTops, Run;
    hide Stretch, NewBins, NewOwners, BinsOutside, Unowned;
    CutRun(s, s', xs, mid, hi, u, v);
    RunStretch(s, xs, hi);
    CutPatch(s, s', xs, mid, hi, u, v);
    CutBins(s, s', xs, mid, hi, u, v);
    CutOwners(s, xs, mid, hi, u, v, orphans, orphans');
    PatchInv(s, s', lo, hi, n, orphans, orphans');
  }

  lemma CutRun(s: State, s': State, xs: seq<nat>, mid: nat, hi: nat, u: bool, v: bool)
    requires xs != [] && xs[0] < mid < hi && Cut(s, s', xs, mid, hi, u, v)
    ensures Run(s.chunks, xs, hi) && (hi in s.chunks || IsStop(s.segs, hi))
  {
  }

  lemma CutPatch(s: State, s': State, xs: seq<nat>, mid: nat, hi: nat, u: bool, v: bool)
    requires Layout(s.chunks, s.segs) && xs != [] && xs[0] < mid < hi && Cut(s, s', xs, mid, hi, u, v)
    requires Stretch(s, xs[0], hi)
    requires !u ==> v && xs[0] != s'.top && s.head[xs[0]].pinuse
    requires !v ==> u && (hi in s.chunks ==> s.chunks[hi].inuse)
    ensures Patch(s, s', xs[0], hi, Two(xs[0], mid, hi, u, v))
    ensures NewCalm(s, xs[0], hi, Two(xs[0], mid, hi, u, v))
  {
    hide Stretch, Patched;
    var lo := xs[0];
    var n: Chunks := Two(lo, mid, hi, u, v);
    CutTiles(s, xs, mid, hi, u, v);
    assert NewTag(s', n, lo, lo) && NewTag(s', n, lo, mid);
  }

  lemma CutTiles(s: State, xs: seq<nat>, mid: nat, hi: nat, u: bool, v: bool)
    requires Layout(s.chunks, s.segs) && Run(s.chunks, xs, hi) && xs[0] < mid < hi && Aligned(mid)
    ensures NewTiles(Two(xs[0], mid, hi, u, v), xs[0], hi)
  {
    RunAligned(s, xs, hi);
    var n: Chunks := Two(xs[0], mid, hi, u, v);
    assert NewTile(n, xs[0], hi, xs[0]) && NewTile(n, xs[0], hi, mid);
  }
}
