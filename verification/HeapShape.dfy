/**
 * The shape of the heap: chunks with boundary tags that tile the segments obtained from the system.
 * Everything here is about values; the allocator that updates them is in module Malloc.
 */
module HeapShape {

  import opened Words

  const ALIGNMENT: nat := 16
  const MIN_CHUNK_SIZE: nat := 32
  const TOP_FOOT_SIZE: nat := 80
  const CHUNK_OVERHEAD: nat := 16
  const MMAP_FOOT_PAD: nat := 32
  const PAGE_SIZE: nat := 4096

  predicate Aligned(x: nat) {
    x % ALIGNMENT == 0
  }

  predicate Paged(x: nat) {
    x % PAGE_SIZE == 0
  }

  /** The head word of a chunk: its size, CINUSE and PINUSE bits. */
  datatype Head = Head(size: nat, cinuse: bool, pinuse: bool)

  datatype Chunk = Chunk(size: nat, inuse: bool)

  type Chunks = map<nat, Chunk>

  /** A segment; `stop` is where its chunks end and the fence or the trailer of top begins. */
  datatype Segment = Segment(base: nat, size: nat, stop: nat)

  /**
   * A state of the allocator.  `head` and `foot` are the tag words in memory (`foot[a]` is the prev_foot
   * word at a).  `chunks` says which tags are current.  `records` are the chunks that hold segment
   * records, `direct` the regions mapped for single large requests, `live` the payloads handed out with
   * the number of bytes asked for, and `free` the contents of the bins.
   */
  datatype State = State(
    head: map<nat, Head>, foot: map<nat, nat>, chunks: Chunks, segs: seq<Segment>, direct: map<nat, nat>,
    records: set<nat>, live: map<nat, nat>, free: map<nat, nat>, dv: nat, dvsize: nat, top: nat, topsize: nat)

  function End(c: Chunks, a: nat): nat
    requires a in c
  {
    a + c[a].size
  }

  ghost predicate IsStop(segs: seq<Segment>, x: nat) {
    exists k: nat :: k < |segs| && segs[k].stop == x
  }

  // ----- geometry

  ghost predicate Apart(c: Chunks, a: nat, b: nat)
    requires a in c && b in c
  {
    a < b ==> End(c, a) <= b
  }

  /** One chunk: aligned, of positive size, followed by a chunk or a stop, with no stop inside. */
  ghost predicate Placed(c: Chunks, segs: seq<Segment>, a: nat)
    requires a in c
  {
    && a > 0 && c[a].size > 0 && Aligned(a) && Aligned(c[a].size)
    && (End(c, a) in c || IsStop(segs, End(c, a)))
    && NoStop(segs, a, End(c, a))
    && InSegment(segs, a)
  }

  ghost predicate NoStop(segs: seq<Segment>, lo: nat, hi: nat) {
    forall k: nat | k < |segs| :: !(lo <= segs[k].stop < hi)
  }

  ghost predicate InSegment(segs: seq<Segment>, a: nat) {
    exists k: nat :: k < |segs| && segs[k].base <= a < segs[k].stop
  }

  ghost predicate Layout(c: Chunks, segs: seq<Segment>) {
    && (forall a {:trigger Placed(c, segs, a)} | a in c :: Placed(c, segs, a))
    && (forall a, b {:trigger Apart(c, a, b)} | a in c && b in c :: Apart(c, a, b))
  }

  ghost predicate CalmAt(c: Chunks, a: nat)
    requires a in c
  {
    c[a].inuse || (End(c, a) in c ==> c[End(c, a)].inuse)
  }

  /** No two neighbouring chunks are both free. */
  ghost predicate Calm(c: Chunks) {
    forall a {:trigger CalmAt(c, a)} | a in c :: CalmAt(c, a)
  }

  // ----- boundary tags

  ghost predicate FreeBefore(c: Chunks, a: nat, size: nat) {
    size <= a && a - size in c && c[a - size] == Chunk(size, false)
  }

  ghost predicate TagOk(s: State, a: nat)
    requires a in s.chunks
  {
    var n := End(s.chunks, a);
    && a in s.head && s.head[a].size == s.chunks[a].size && s.head[a].cinuse == s.chunks[a].inuse
    && n in s.head && s.head[n].pinuse == s.chunks[a].inuse
    && (!s.chunks[a].inuse && a != s.top ==> n in s.foot && s.foot[n] == s.chunks[a].size)
    && (!s.head[a].pinuse ==> a in s.foot && FreeBefore(s.chunks, a, s.foot[a]))
  }

  ghost predicate Tagged(s: State) {
    forall a {:trigger TagOk(s, a)} | a in s.chunks :: TagOk(s, a)
  }

  // ----- segments and direct mappings

  ghost predicate SegOk(s: State, k: nat)
    requires k < |s.segs|
  {
    var g := s.segs[k];
    && 0 < g.base && Paged(g.base) && Paged(g.size) && g.base + g.size < WORD
    && g.base < g.stop && Aligned(g.stop) && g.stop + MIN_CHUNK_SIZE <= g.base + g.size
    && g.base in s.chunks && g.base in s.head && s.head[g.base].pinuse
    && g.stop !in s.chunks
  }

  ghost predicate DirectOk(s: State, p: nat)
    requires p in s.direct
  {
    && 0 < p && Paged(p) && MMAP_FOOT_PAD < s.direct[p] && p + s.direct[p] < WORD
    && p in s.head && s.head[p] == Head(s.direct[p] - MMAP_FOOT_PAD, false, false)
  }

  ghost predicate Disjoint(a: nat, m: nat, b: nat, n: nat) {
    a + m <= b || b + n <= a
  }

  ghost predicate SegsApart(g: Segment, h: Segment) {
    Disjoint(g.base, g.size, h.base, h.size)
  }

  ghost predicate DirectApart(s: State, k: nat, p: nat)
    requires k < |s.segs| && p in s.direct
  {
    Disjoint(s.segs[k].base, s.segs[k].size, p, s.direct[p])
  }

  ghost predicate DirectsApart(s: State, p: nat, q: nat)
    requires p in s.direct && q in s.direct
  {
    Disjoint(p, s.direct[p], q, s.direct[q])
  }

  ghost predicate Segments(s: State) {
    && (forall k: nat {:trigger SegOk(s, k)} | k < |s.segs| :: SegOk(s, k))
    && (forall j: nat, k: nat {:trigger SegsApart(s.segs[j], s.segs[k])} | j < k < |s.segs| :: SegsApart(s.segs[j], s.segs[k]))
    && (forall p {:trigger DirectOk(s, p)} | p in s.direct :: DirectOk(s, p))
    && (forall k: nat, p {:trigger DirectApart(s, k, p)} | k < |s.segs| && p in s.direct :: DirectApart(s, k, p))
    && (forall p, q {:trigger DirectsApart(s, p, q)} | p in s.direct && q in s.direct && p != q :: DirectsApart(s, p, q))
  }

  // ----- the special free chunks, the bins and the payloads

  ghost predicate TopAndVictim(s: State) {
    && (s.dv == 0 <==> s.dvsize == 0)
    && (s.dv != 0 ==> s.dv in s.chunks && s.chunks[s.dv] == Chunk(s.dvsize, false) && s.dv != s.top)
    && (s.top == 0 ==> s.topsize == 0)
    && (s.top != 0 ==>
         && s.segs != [] && s.top in s.chunks && s.chunks[s.top] == Chunk(s.topsize, false)
         && s.segs[0].stop == s.top + s.topsize && s.segs[0].base + s.segs[0].size == s.segs[0].stop + TOP_FOOT_SIZE)
    && (forall a {:trigger RoleOk(s, a)} | a in s.chunks :: RoleOk(s, a))
  }

  /** Only top may be smaller than the least chunk, and only top and segment records border a stop. */
  ghost predicate RoleOk(s: State, a: nat)
    requires a in s.chunks
  {
    && (a == s.top || s.chunks[a].size >= MIN_CHUNK_SIZE)
    && (End(s.chunks, a) in s.chunks || a == s.top || a in s.records)
  }

  /** Chunk a is free and belongs in a bin. */
  ghost predicate Binnable(s: State, a: nat) {
    a in s.chunks && !s.chunks[a].inuse && a != s.dv && a != s.top
  }

  /** The bins hold exactly the free chunks other than the designated victim and top. */
  ghost predicate Binned(s: State) {
    forall a: nat {:trigger Binnable(s, a)} {:trigger a in s.free} ::
      (a in s.free <==> Binnable(s, a)) && (a in s.free ==> s.free[a] == s.chunks[a].size)
  }

  /** The payload at m lies inside its own chunk. */
  ghost predicate PayloadOk(s: State, m: nat)
    requires m in s.live
  {
    && m >= CHUNK_OVERHEAD
    && var p := m - CHUNK_OVERHEAD;
       || (p in s.chunks && s.chunks[p].inuse && p !in s.records && s.live[m] + CHUNK_OVERHEAD <= s.chunks[p].size)
       || (p in s.direct && s.live[m] + CHUNK_OVERHEAD + MMAP_FOOT_PAD <= s.direct[p])
  }

  ghost predicate OwnerOk(s: State, a: nat, orphans: set<nat>) {
    a in s.records || a + CHUNK_OVERHEAD in s.live || a in orphans
  }

  /** Every chunk in use is a live payload, a segment record, or one of the given orphans, and only one of these. */
  ghost predicate Owned(s: State, orphans: set<nat>) {
    && (forall m {:trigger PayloadOk(s, m)} | m in s.live :: PayloadOk(s, m))
    && (forall a {:trigger OwnerOk(s, a, orphans)} | a in s.chunks && s.chunks[a].inuse :: OwnerOk(s, a, orphans))
    && (forall a | a in s.records :: a in s.chunks && s.chunks[a].inuse && a !in orphans)
    && (forall a | a in orphans :: a in s.chunks && s.chunks[a].inuse && a + CHUNK_OVERHEAD !in s.live)
  }

  /** The allocator's invariant, with some chunks in use that are not (or no longer) handed out. */
  ghost predicate Inv(s: State, orphans: set<nat>) {
    && Layout(s.chunks, s.segs) && Calm(s.chunks) && Tagged(s) && Segments(s)
    && TopAndVictim(s) && Binned(s) && Owned(s, orphans)
  }
}
