/**
 * Which free memory serves a request, and what becomes of the rest: by chunks, designated victim and top
 * alone.  The bins then follow, since they hold every other free chunk.
 */
module HeapPolicy {
  import opened Words
  import opened HeapShape
  import opened HeapPatch
  import opened HeapSteps
  import opened HeapFacts
  import opened HeapFree
  import opened HeapAlloc
  import opened HeapGrow
  import opened HeapResize
  import opened HeapSys
  import Bins

  // ----- serving a request from free memory

  /**
   * The designated victim serves nb bytes: it is large enough and, for a small request, no binned chunk
   * fits without remainder; for a large one, no binned chunk that fits is smaller.
   */
  ghost predicate VictimServes(s: State, nb: nat) {
    && nb <= s.dvsize
    && if Bins.IsSmall(nb) then forall a | a in s.free :: s.free[a] != nb && s.free[a] != nb + 8
       else forall a | a in s.free && nb <= s.free[a] :: s.dvsize <= s.free[a]
  }

  /** The bins have no chunk of nb bytes or more. */
  ghost predicate NoneBinned(s: State, nb: nat) {
    forall a | a in s.free :: s.free[a] < nb
  }

  /** Neither the bins, the designated victim nor top can serve nb bytes. */
  ghost predicate NoneFree(s: State, nb: nat) {
    NoneBinned(s, nb) && s.dvsize < nb && s.topsize <= nb
  }

  /** Chunk p is the one to serve nb bytes: the victim, else a smallest binned chunk that fits, else top. */
  ghost predicate Chosen(s: State, p: nat, nb: nat) {
    if VictimServes(s, nb) then p == s.dv
    else if !NoneBinned(s, nb) then Bins.BestFit(s.free, p, nb)
    else p == s.top && nb < s.topsize
  }

  /**
   * Chunk p is handed out for nb bytes.  A rest that can be a chunk stays free: it is the new top if p was
   * top, the new victim if p was the victim or the request is small, and otherwise goes to its bin.
   */
  ghost predicate Handed(s: State, s': State, p: nat, nb: nat) {
    && p in s.chunks && nb <= s.chunks[p].size
    && s'.segs == s.segs && s'.direct == s.direct && s'.records == s.records && s'.live == s.live
    && var z := s.chunks[p].size;
       if p != s.top && z - nb < MIN_CHUNK_SIZE then
         && s'.chunks == s.chunks[p := Chunk(z, true)]
         && s'.top == s.top && s'.dv == if p == s.dv then 0 else s.dv
       else
         && s'.chunks == s.chunks[p := Chunk(nb, true)][p + nb := Chunk(z - nb, false)]
         && s'.top == (if p == s.top then p + nb else s.top)
         && s'.dv == if p == s.dv || (p != s.top && Bins.IsSmall(nb)) then p + nb else s.dv
  }

  /** Replacing a stretch of the chunks xs. */
  lemma PatchedOver(c: Chunks, lo: nat, hi: nat, n: Chunks, xs: set<nat>)
    requires forall a | a in c && lo <= a < hi :: a in xs
    requires forall a | a in xs :: lo <= a < hi
    ensures Patched(c, lo, hi, n) == (c - xs) + n
  {
  }

  lemma PatchedChunk(s: State, p: nat, n: Chunks, orphans: set<nat>)
    requires Inv(s, orphans) && p in s.chunks
    ensures Patched(s.chunks, p, End(s.chunks, p), n) == (s.chunks - {p}) + n
  {
    forall a | a in s.chunks && p <= a < End(s.chunks, p) ensures a == p {
      assert Apart(s.chunks, p, a);
    }
    assert Placed(s.chunks, s.segs, p);
    PatchedOver(s.chunks, p, End(s.chunks, p), n, {p});
  }

  lemma HandedWhole(s: State, s': State, p: nat, nb: nat)
    requires Inv(s, {}) && FreeFacts(s, p) && p != s.top && TakenWhole(s, s', p)
    requires nb <= s.chunks[p].size < nb + MIN_CHUNK_SIZE
    ensures Handed(s, s', p, nb)
  {
    hide Inv, Patched;
    PatchedChunk(s, p, One(p, End(s.chunks, p), true), {});
  }

  lemma HandedPart(s: State, s': State, p: nat, nb: nat, rest: Remainder)
    requires Inv(s, {}) && FreeFacts(s, p) && 0 < nb < s.chunks[p].size && TakenPart(s, s', p, nb, rest)
    requires rest == ToTop || s.chunks[p].size >= nb + MIN_CHUNK_SIZE
    requires p == s.dv ==> rest == ToVictim
    requires p != s.dv && p != s.top ==> rest == if Bins.IsSmall(nb) then ToVictim else ToBin
    ensures Handed(s, s', p, nb)
  {
    hide Inv, Patched;
    PatchedChunk(s, p, Two(p, p + nb, End(s.chunks, p), true, false), {});
    Halved(s.chunks, p, p + nb, End(s.chunks, p), {p}, false);
    hide Two, FreeFacts, Bins.IsSmall;
  }

  lemma Halved(c: Chunks, lo: nat, mid: nat, hi: nat, xs: set<nat>, v: bool)
    requires lo < mid < hi && lo in xs
    ensures (c - xs) + Two(lo, mid, hi, true, v) == (c - (xs - {lo}))[lo := Chunk(mid - lo, true)][mid := Chunk(hi - mid, v)]
  {
  }

  // ----- resizing in place

  /** The end of chunk p together with the free chunk after it, if there is one. */
  ghost function Behind(c: Chunks, p: nat): (hi: nat)
    requires p in c
  {
    var n := End(c, p);
    if n in c && !c[n].inuse then End(c, n) else n
  }

  /** Chunk p can have nb bytes where it is: its own, or also those of the free chunk after it; top is never used up. */
  ghost predicate FitsInPlace(s: State, p: nat, nb: nat) {
    && p in s.chunks
    && (nb <= s.chunks[p].size || nb + p < Behind(s.chunks, p) || (nb + p == Behind(s.chunks, p) && End(s.chunks, p) != s.top))
  }

  /**
   * Chunk p has been given nb bytes where it is.  What is left of it and of the free chunk after it is one
   * free chunk in the role of the latter, unless it is too small to be a chunk; then p keeps it.
   */
  ghost predicate Resized(s: State, s': State, p: nat, nb: nat) {
    && p in s.chunks
    && s'.segs == s.segs && s'.direct == s.direct && s'.records == s.records && s'.live == s.live
    && var z, n, hi := s.chunks[p].size, End(s.chunks, p), Behind(s.chunks, p);
       var others := if hi == n then s.chunks else s.chunks - {n};
       if nb <= z && z - nb < MIN_CHUNK_SIZE then
         s'.chunks == s.chunks && s'.top == s.top && s'.dv == s.dv
       else if n != s.top && hi < p + nb + MIN_CHUNK_SIZE then
         && hi >= p && s'.chunks == others[p := Chunk(hi - p, true)]
         && s'.top == s.top && s'.dv == if n == s.dv then 0 else s.dv
       else
         && hi >= p + nb && s'.chunks == others[p := Chunk(nb, true)][p + nb := Chunk(hi - (p + nb), false)]
         && s'.top == (if n == s.top then p + nb else s.top)
         && s'.dv == if n == s.dv then p + nb else s.dv
  }

  /** The chunks within the reach of p. */
  lemma PatchedReach(s: State, p: nat, e: nat, n: Chunks)
    requires Inv(s, {p}) && Reach(s, p, e)
    ensures Patched(s.chunks, p, e, n) == (if e == End(s.chunks, p) then s.chunks - {p} else s.chunks - {p, End(s.chunks, p)}) + n
  {
    ReachFacts(s, p, e, {p});
    var xs := Reached(s, p, e);
    RunStretch(s, xs, e);
    var x := set a | a in xs;
    hide Inv, Reach, Patched;
    PatchedOver(s.chunks, p, e, n, x);
    assert x == if e == End(s.chunks, p) then {p} else {p, End(s.chunks, p)};
  }

  /** Swallowing the free chunk after p. */
  lemma ResizedWide(s: State, s': State, p: nat, nb: nat, e: nat)
    requires Inv(s, {p}) && Reach(s, p, e) && Widened(s, s', p, e) && e != End(s.chunks, p) && End(s.chunks, p) != s.top
    requires s.chunks[p].size < nb && p + nb <= e < p + nb + MIN_CHUNK_SIZE
    ensures Resized(s, s', p, nb)
  {
    hide Inv, Patched, FreeFacts;
    PatchedReach(s, p, e, One(p, e, true));
    assert p != s.dv;
  }

  /** Taking part of top or of the victim after p. */
  lemma ResizedCut(s: State, s': State, p: nat, nb: nat, e: nat)
    requires Inv(s, {p}) && Reach(s, p, e) && 0 < nb < e - p && Recut(s, s', p, nb, e, false) && s.chunks[p].size < nb
    requires End(s.chunks, p) == s.top || e >= p + nb + MIN_CHUNK_SIZE
    ensures Resized(s, s', p, nb)
  {
    hide Inv, Patched, FreeFacts;
    PatchedReach(s, p, e, Two(p, p + nb, e, true, false));
  }

  // ----- giving memory back

  /** The free memory that ends at p starts at lo: a free chunk before p, or nothing. */
  ghost predicate StartsAt(c: Chunks, p: nat, lo: nat) {
    || (lo == p && forall b | b in c && End(c, b) == p :: c[b].inuse)
    || (lo in c && !c[lo].inuse && End(c, lo) == p)
  }

  /**
   * Chunk p is freed: it and the free chunks on either side are one free chunk at lo, which is top if it
   * reaches top, else the victim if it swallows that, and otherwise goes to its bin.
   */
  ghost predicate GivenBack(s: State, s': State, p: nat, lo: nat) {
    && p in s.chunks && StartsAt(s.chunks, p, lo) && lo < Behind(s.chunks, p)
    && s'.segs == s.segs && s'.direct == s.direct && s'.records == s.records && s'.live == s.live
    && var n, hi := End(s.chunks, p), Behind(s.chunks, p);
       && s'.chunks == (s.chunks - (if hi == n then {p} else {p, n}))[lo := Chunk(hi - lo, false)]
       && s'.top == (if n == s.top then lo else s.top)
       && s'.dv == if s.dv != lo && s.dv != n then s.dv else if n == s.top then 0 else lo
  }

  lemma FreedMeans(s: State, s': State, p: nat, orphans: set<nat>)
    requires Inv(s, orphans) && p in orphans && UsedFacts(s, p) && Freed(s, s', p)
    ensures GivenBack(s, s', p, AroundStart(s, p))
  {
    FreedStart(s, p, orphans);
    FreedEnds(s, p, orphans);
    FreedChunks(s, s', p, orphans);
    hide Inv, Patched, UsedFacts, FreeFacts, FreePrev, StartsAt, Around, AroundStart, AroundEnd, BinsOutside;
    assert FreedPlace(s, s', p) && FreedTags(s, s', p);
  }

  lemma FreedStart(s: State, p: nat, orphans: set<nat>)
    requires Inv(s, orphans) && UsedFacts(s, p)
    ensures StartsAt(s.chunks, p, AroundStart(s, p))
  {
    if s.head[p].pinuse {
      forall b | b in s.chunks && End(s.chunks, b) == p ensures s.chunks[b].inuse { assert TagOk(s, b); }
    }
  }

  /** Where the free memory around p ends, and where top and the victim are in it. */
  lemma FreedEnds(s: State, p: nat, orphans: set<nat>)
    requires Inv(s, orphans) && p in orphans && UsedFacts(s, p)
    ensures Behind(s.chunks, p) == AroundEnd(s, p)
    ensures s.top in Around(s, p) <==> s.top == End(s.chunks, p)
    ensures s.dv in Around(s, p) <==> s.dv == AroundStart(s, p) || s.dv == End(s.chunks, p)
  {
    hide Aligned;
    var n := End(s.chunks, p);
    assert RoleOk(s, p);
    assert s.chunks[n].inuse ==> n != s.top && n != s.dv;
  }

  lemma FreedChunks(s: State, s': State, p: nat, orphans: set<nat>)
    requires Inv(s, orphans) && p in orphans && UsedFacts(s, p) && Freed(s, s', p)
    ensures var lo, n, hi := AroundStart(s, p), End(s.chunks, p), AroundEnd(s, p);
      lo < hi && s'.chunks == (s.chunks - (if hi == n then {p} else {p, n}))[lo := Chunk(hi - lo, false)]
  {
    hide Inv, Patched, UsedFacts, FreeFacts, Around, AroundStart, AroundEnd, FreedPlace, Run, Unowned, One;
    OrphanChunk(s, p, orphans);
    var lo, n, hi := AroundStart(s, p), End(s.chunks, p), AroundEnd(s, p);
    var x := set a | a in Around(s, p);
    FreedPlaces(s, p);
    FreedStretch(s, p, orphans);
    PatchedOver(s.chunks, lo, hi, One(lo, hi, false), x);
    assert FreedTags(s, s', p);
    Joined(s.chunks, lo, if hi == n then {p} else {p, n}, x, hi);
  }

  lemma Joined(c: Chunks, lo: nat, xs: set<nat>, x: set<nat>, hi: nat)
    requires x == {lo} + xs && lo < hi
    ensures (c - x) + One(lo, hi, false) == (c - xs)[lo := Chunk(hi - lo, false)]
  {
  }

  lemma FreedStretch(s: State, p: nat, orphans: set<nat>)
    requires Inv(s, orphans) && UsedFacts(s, p) && p !in s.records && p + CHUNK_OVERHEAD !in s.live
    ensures var lo, hi := AroundStart(s, p), AroundEnd(s, p);
      && (forall a | a in s.chunks && lo <= a < hi :: a in Around(s, p))
      && (forall a | a in Around(s, p) :: lo <= a < hi) && lo < hi
  {
    AroundFacts(s, p);
    RunStretch(s, Around(s, p), AroundEnd(s, p));
  }

  lemma FreedPlaces(s: State, p: nat)
    requires UsedFacts(s, p)
    ensures var lo, n, hi := AroundStart(s, p), End(s.chunks, p), AroundEnd(s, p);
      (set a | a in Around(s, p)) == {lo} + (if hi == n then {p} else {p, n})
  {
    hide Aligned;
  }

  /** Cutting p off at nb and freeing the rest, up to the end of p or of the binned chunk after it. */
  lemma ResizedDisposed(s: State, s1: State, s2: State, p: nat, nb: nat, e: nat)
    requires Inv(s, {p}) && Reach(s, p, e) && 0 < nb < e - p && Recut(s, s1, p, nb, e, true) && e >= p + nb + MIN_CHUNK_SIZE
    requires e == End(s.chunks, p) || s.chunks[p].size < nb
    requires Inv(s1, {p, p + nb}) && UsedFacts(s1, p + nb) && Freed(s1, s2, p + nb)
    ensures Resized(s, s2, p, nb)
  {
    hide Inv, Patched, FreeFacts, UsedFacts, Two, StartsAt, Reach, Recut, Freed;
    RestGiven(s, s1, s2, p, nb, e);
    RestChunks(s, s1, p, nb, e);
    RestDisposed(s, s1, p, nb, e);
    RestCut(s, s1, s2, p, nb, e);
  }

  lemma RestGiven(s: State, s1: State, s2: State, p: nat, nb: nat, e: nat)
    requires Reach(s, p, e) && 0 < nb < e - p && Recut(s, s1, p, nb, e, true)
    requires Inv(s1, {p, p + nb}) && UsedFacts(s1, p + nb) && Freed(s1, s2, p + nb)
    ensures GivenBack(s1, s2, p + nb, p + nb)
  {
    hide Inv, Freed, GivenBack, FreeFacts, Patched;
    assert s1.head[p + nb].pinuse;
    FreedMeans(s1, s2, p + nb, {p, p + nb});
  }

  lemma RestCut(s: State, s1: State, s2: State, p: nat, nb: nat, e: nat)
    requires Inv(s, {p}) && Reach(s, p, e) && 0 < nb < e - p && Recut(s, s1, p, nb, e, true)
    requires e == End(s.chunks, p) || s.chunks[p].size < nb
    requires GivenBack(s1, s2, p + nb, p + nb)
    ensures var r, n, hi := p + nb, End(s.chunks, p), Behind(s.chunks, p);
      r <= hi && s2.chunks == (if hi == n then s.chunks else s.chunks - {n})[p := Chunk(nb, true)][r := Chunk(hi - r, false)]
  {
    hide Inv, Patched, FreeFacts, UsedFacts, Two, StartsAt, Reach, Recut, Behind;
    RestChunks(s, s1, p, nb, e);
    RestDisposed(s, s1, p, nb, e);
    hide End;
    RestJoined(s.chunks, s1.chunks, s2.chunks, p, p + nb, End(s.chunks, p), e, Behind(s.chunks, p));
  }

  lemma RestJoined(c: Chunks, c1: Chunks, c2: Chunks, p: nat, r: nat, n: nat, e: nat, hi: nat)
    requires p < r < e <= hi && p < n <= e && (e == n || hi == e)
    requires c1 == (c - (if e == n then {} else {n}))[p := Chunk(r - p, true)][r := Chunk(e - r, true)]
    requires c2 == (c1 - (if hi == e then {r} else {r, e}))[r := Chunk(hi - r, false)]
    ensures c2 == (if hi == n then c else c - {n})[p := Chunk(r - p, true)][r := Chunk(hi - r, false)]
  {
    var gone := if e == n then {} else {n};
    var after := if hi == e then {} else {e};
    assert {r} + after == if hi == e then {r} else {r, e};
    Regrouped(c, gone, p, r, Chunk(r - p, true), Chunk(e - r, true), Chunk(hi - r, false), after);
    assert c - (gone + after) == if hi == n then c else c - {n};
  }

  lemma Regrouped(c: Chunks, gone: set<nat>, p: nat, r: nat, a: Chunk, b: Chunk, b': Chunk, after: set<nat>)
    requires p !in after && p != r
    ensures ((c - gone)[p := a][r := b] - ({r} + after))[r := b'] == (c - (gone + after))[p := a][r := b']
  {
  }

  lemma RestDisposed(s: State, s1: State, p: nat, nb: nat, e: nat)
    requires Inv(s, {p}) && Reach(s, p, e) && 0 < nb < e - p && Recut(s, s1, p, nb, e, true)
    requires e == End(s.chunks, p) || s.chunks[p].size < nb
    ensures var r, n := p + nb, End(s.chunks, p);
      && n in s.chunks && p < n <= e && r != s.dv && r != n && s1.top == s.top && s1.dv == s.dv && (n == s.dv ==> n != s.top)
      && s1.segs == s.segs && s1.direct == s.direct && s1.records == s.records && s1.live == s.live
      && (e == n || (Behind(s.chunks, p) == e && n != s.top && n != s.dv && e != s.top && e != s.dv))
      && s1.chunks == (s.chunks - (if e == n then {} else {n}))[p := Chunk(nb, true)][r := Chunk(e - r, true)]
  {
    hide Patched;
    var r, n := p + nb, End(s.chunks, p);
    MiddleUnowned(s, p, e, r, {p});
    PatchedReach(s, p, e, Two(p, r, e, true, true));
    Halved(s.chunks, p, r, e, if e == n then {p} else {p, n}, true);
    assert {p} - {p} == {} && {p, n} - {p} == {n};
  }

  /** The rest and what follows it, once p is cut. */
  lemma RestChunks(s: State, s1: State, p: nat, nb: nat, e: nat)
    requires Inv(s, {p}) && Reach(s, p, e) && 0 < nb < e - p && Recut(s, s1, p, nb, e, true)
    ensures var r := p + nb;
      && p in s.chunks && r in s1.chunks && End(s1.chunks, r) == e
      && e in s.chunks && e in s1.chunks && s1.chunks[e] == s.chunks[e]
      && Behind(s1.chunks, r) == Behind(s.chunks, p) >= e
  {
    hide Aligned;
  }

  /** The victim is the free chunk of a whole segment other than the first. */
  ghost predicate VictimFills(s: State, k: nat) {
    0 < k < |s.segs| && s.dv == s.segs[k].base && s.dvsize + TOP_FOOT_SIZE >= s.segs[k].size
  }

  /** What is left after segments that are one free chunk are offered to a system that does not take them. */
  ghost function Offered(s: State): (s': State) {
    if exists k: nat :: VictimFills(s, k) then VictimBinned(s) else s
  }

  const MAX_RELEASE_CHECK_RATE: nat := 4095

  /** Segments are offered when a count of large chunks that went to the bins has run out. */
  ghost predicate Counted(t: State, lo: nat, checks: nat, s': State, checks': nat) {
    if lo !in t.free || Bins.IsSmall(t.free[lo]) then
      s' == t && checks' == checks
    else if checks > 1 then
      s' == t && checks' == checks - 1
    else
      && s' == Offered(t)
      && checks' == if |t.segs| > MAX_RELEASE_CHECK_RATE + 1 then |t.segs| - 1 else MAX_RELEASE_CHECK_RATE
  }

  /** The answer of free: the chunk of the payload is given back; a direct mapping stays. */
  ghost predicate FreeAnswer(s: State, checks: nat, s': State, checks': nat, mem: nat) {
    var s0 := s.(live := s.live - {mem});
    if mem == 0 then s' == s && checks' == checks
    else if mem < CHUNK_OVERHEAD || mem - CHUNK_OVERHEAD !in s.chunks then s' == s0 && checks' == checks
    else exists t, lo :: GivenBack(s0, t, mem - CHUNK_OVERHEAD, lo) && Counted(t, lo, checks, s', checks')
  }

  // ----- memory from the system

  /** Where the segments lie. */
  ghost function Extents(segs: seq<Segment>): (r: seq<(nat, nat)>)
    ensures |r| == |segs|
  {
    seq(|segs|, k requires 0 <= k < |segs| => (segs[k].base, segs[k].size))
  }

  /** Memory of n bytes at t follows the segment of top. */
  ghost predicate Adjoins(s: State, t: nat) {
    s.top != 0 && s.segs != [] && s.segs[0].base + s.segs[0].size == t
  }

  /** Memory of n bytes at t lies right before segment k. */
  ghost predicate Precedes(s: State, t: nat, n: nat, k: nat) {
    k < |s.segs| && t + n == s.segs[k].base
  }

  /**
   * Top has grown by n bytes at t: in place if they follow its segment.  Otherwise they are a new segment
   * that is all top, and an old top is an ordinary free chunk before the record of its segment.
   */
  ghost predicate Enlarged(s: State, s': State, t: nat, n: nat) {
    && n > TOP_FOOT_SIZE && s'.dv == s.dv && s'.direct == s.direct && s'.live == s.live
    && if Adjoins(s, t) then
         && s'.top == s.top && s'.topsize == s.topsize + n && s'.chunks == s.chunks[s.top := Chunk(s.topsize + n, false)]
         && Extents(s'.segs) == Extents(s.segs)[0 := (s.segs[0].base, s.segs[0].size + n)] && s'.records == s.records
       else
         && s'.top == t && s'.topsize == n - TOP_FOOT_SIZE && Extents(s'.segs) == [(t, n)] + Extents(s.segs)
         && if s.top == 0 then
              s'.chunks == s.chunks[t := Chunk(n - TOP_FOOT_SIZE, false)] && s'.records == s.records
            else
              var r := if s.topsize < MIN_CHUNK_SIZE then s.top else s.top + s.topsize;
              && s'.chunks == s.chunks[r := Chunk(RECORD_SIZE, true)][t := Chunk(n - TOP_FOOT_SIZE, false)]
              && s'.records == s.records + {r}
  }

  /** The n bytes at t before segment k begin with a chunk of nb bytes; the rest joins the first chunk if that is free. */
  ghost predicate FrontUsed(s: State, s': State, k: nat, t: nat, n: nat, nb: nat) {
    && k < |s.segs| && s.segs[k].base in s.chunks && s'.direct == s.direct && s'.live == s.live && s'.records == s.records
    && Extents(s'.segs) == Extents(s.segs)[k := (t, s.segs[k].size + n)]
    && var first := s.segs[k].base;
       var hi := if s.chunks[first].inuse then first else End(s.chunks, first);
       && t + nb < hi
       && s'.chunks == (if hi == first then s.chunks else s.chunks - {first})[t := Chunk(nb, true)][t + nb := Chunk(hi - (t + nb), false)]
       && s'.top == (if first == s.top then t + nb else s.top)
       && s'.dv == if first == s.dv then t + nb else s.dv
  }

  /** A new mapping of n bytes at t serves nb bytes by chunk p. */
  ghost predicate SegmentServes(s: State, s': State, t: nat, n: nat, p: nat, nb: nat) {
    if s.top != 0 && !Adjoins(s, t) && exists k: nat :: Precedes(s, t, n, k)
    then p == t && exists k: nat :: Precedes(s, t, n, k) && FrontUsed(s, s', k, t, n, nb)
    else exists mid: State :: Enlarged(s, mid, t, n) && p == mid.top && Handed(mid, s', p, nb)
  }

  /** An answer to a request of nb bytes, for which mm and t are what the system maps directly and as a segment. */
  ghost predicate SystemServes(s: State, s': State, mm: nat, directSize: nat, t: nat, n: nat, p: nat, nb: nat) {
    if nb >= MMAP_THRESHOLD && s.topsize != 0 && directSize > nb && mm != 0
    then p == mm && directSize > MMAP_FOOT_PAD && s' == Mapped(s, mm, directSize)
    else if t != 0 && n > nb then SegmentServes(s, s', t, n, p, nb)
    else p == 0 && s' == s
  }

  const MMAP_THRESHOLD: nat := 0x40000

  lemma ExtentsUpdated(segs: seq<Segment>, k: nat, g: Segment)
    requires k < |segs|
    ensures Extents(segs[k := g]) == Extents(segs)[k := (g.base, g.size)]
  {
  }

  lemma ExtentsAdded(segs: seq<Segment>, g: Segment)
    ensures Extents([g] + segs) == [(g.base, g.size)] + Extents(segs)
  {
  }

  lemma FirstEnlarged(s: State, t: nat, n: nat)
    requires s.top == 0 && n > TOP_FOOT_SIZE
    ensures Enlarged(s, WithTop(s, t, n), t, n)
  {
    ExtentsAdded(s.segs, Segment(t, n, t + (n - TOP_FOOT_SIZE)));
  }

  lemma UpEnlarged(s: State, n: nat)
    requires s.top != 0 && s.segs != [] && n > TOP_FOOT_SIZE
    ensures Enlarged(s, ExtendedUp(s, n), s.segs[0].base + s.segs[0].size, n)
  {
    ExtentsUpdated(s.segs, 0, ExtendedUp(s, n).segs[0]);
  }

  lemma NewEnlarged(s: State, s1: State, t: nat, n: nat)
    requires s.top != 0 && TopAndVictim(s) && Retired(s, s1) && n > TOP_FOOT_SIZE && !Adjoins(s, t)
    ensures Enlarged(s, WithTop(s1, t, n), t, n)
  {
    var g := s.segs[0];
    ExtentsUpdated(s.segs, 0, s1.segs[0]);
    assert Extents(s1.segs) == Extents(s.segs);
    ExtentsAdded(s1.segs, Segment(t, n, t + (n - TOP_FOOT_SIZE)));
  }

  lemma FrontMeans(s: State, s': State, k: nat, t: nat, n: nat, nb: nat)
    requires Inv(s, {}) && Fresh(s, t, n) && k < |s.segs| && t + n == s.segs[k].base && 0 < nb < n
    requires var s2 := Prepended(s, k, t, n, nb);
      && Inv(s2, {t, t + nb}) && UsedFacts(s2, t + nb) && Freed(s2, s', t + nb) && s2.head[t + nb].pinuse
    ensures FrontUsed(s, s', k, t, n, nb)
  {
    hide Inv, Fresh, UsedFacts, Freed, Patched, Two, StartsAt;
    var s2, q, first := Prepended(s, k, t, n, nb), t + nb, s.segs[k].base;
    FreedMeans(s2, s', q, {t, q});
    FrontStart(s2, q);
    FrontChunks(s, k, t, n, nb);
    ExtentsUpdated(s.segs, k, s2.segs[k]);
    hide Prepended, ExtendedDown;
    var hi := if s.chunks[first].inuse then first else End(s.chunks, first);
    assert Behind(s2.chunks, q) == hi;
    FrontJoined(s.chunks, t, q, first, hi, s2.chunks);
  }

  lemma FrontStart(s: State, q: nat)
    requires UsedFacts(s, q) && s.head[q].pinuse
    ensures AroundStart(s, q) == q
  {
  }

  lemma FrontChunks(s: State, k: nat, t: nat, n: nat, nb: nat)
    requires Inv(s, {}) && Fresh(s, t, n) && k < |s.segs| && t + n == s.segs[k].base && 0 < nb < n
    ensures var s2, q, first := Prepended(s, k, t, n, nb), t + nb, s.segs[k].base;
      && s2.chunks == s.chunks[t := Chunk(nb, true)][q := Chunk(n - nb, true)]
      && first in s.chunks && q != s.dv && (first == s.dv ==> first != s.top)
      && s2.segs == s.segs[k := Segment(t, s.segs[k].size + n, s.segs[k].stop)]
      && s2 == s.(head := s2.head, segs := s2.segs, chunks := s2.chunks)
      && s.chunks[first].size > 0
  {
    hide Patched, Aligned, Paged, FreeFacts;
    var s1, q, e := ExtendedDown(s, k, t, n), t + nb, t + n;
    assert SegOk(s, k);
    forall a | a in s.chunks ensures a < t || a >= e { ClearOf(s, t, n, a); }
    assert Placed(s.chunks, s.segs, s.segs[k].base);
    PatchedOver(s1.chunks, t, e, Two(t, q, e, true, true), {t});
    Halved(s1.chunks, t, q, e, {t}, true);
    assert s1.chunks - ({t} - {t}) == s1.chunks;
    assert s1.chunks[t := Chunk(nb, true)] == s.chunks[t := Chunk(nb, true)];
  }

  lemma FrontJoined(c: Chunks, t: nat, q: nat, first: nat, hi: nat, c2: Chunks)
    requires t < q < first <= hi && c2 == c[t := Chunk(q - t, true)][q := Chunk(first - q, true)]
    ensures (c2 - (if hi == first then {q} else {q, first}))[q := Chunk(hi - q, false)]
      == (if hi == first then c else c - {first})[t := Chunk(q - t, true)][q := Chunk(hi - q, false)]
  {
    var after := if hi == first then {} else {first};
    assert {q} + after == if hi == first then {q} else {q, first};
    Regrouped(c, {}, t, q, Chunk(q - t, true), Chunk(first - q, true), Chunk(hi - q, false), after);
    assert c - {} == c && c - ({} + after) == if hi == first then c else c - {first};
  }
}
