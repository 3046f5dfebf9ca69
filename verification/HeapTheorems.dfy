/** What the allocator's invariant means to its users. */
module HeapTheorems {
  import opened Words
  import opened HeapShape
  import opened HeapFacts

  /** The payload at m lies in the memory that the system handed to the allocator. */
  ghost predicate Backed(s: State, m: nat)
    requires m in s.live
  {
    || (exists k: nat :: k < |s.segs| && s.segs[k].base < m && m + s.live[m] <= s.segs[k].base + s.segs[k].size)
    || (exists p: nat :: p in s.direct && p < m && m + s.live[m] <= p + s.direct[p])
  }

  lemma PayloadsBacked(s: State, m: nat, orphans: set<nat>)
    requires Inv(s, orphans) && m in s.live
    ensures Backed(s, m) && Aligned(m)
  {
    assert PayloadOk(s, m);
    var p := m - CHUNK_OVERHEAD;
    if p in s.chunks {
      ChunkNotDirect(s, p);
      var k := ChunkSegment(s, p);
      assert Placed(s.chunks, s.segs, p);
      assert s.segs[k].base < m && m + s.live[m] <= s.segs[k].base + s.segs[k].size;
    } else {
      assert p < m && m + s.live[m] <= p + s.direct[p];
      assert DirectOk(s, p);
      PageStart(p);
    }
  }

  lemma PageStart(p: nat)
    requires Paged(p)
    ensures Aligned(p + CHUNK_OVERHEAD)
  {
    assert p == 16 * (256 * (p / 4096));
  }

  /** A chunk lies inside one segment, before its stop. */
  lemma ChunkSegment(s: State, a: nat) returns (k: nat)
    requires Layout(s.chunks, s.segs) && Segments(s) && a in s.chunks
    ensures k < |s.segs| && s.segs[k].base <= a && End(s.chunks, a) <= s.segs[k].stop < s.segs[k].base + s.segs[k].size
  {
    assert Placed(s.chunks, s.segs, a);
    k :| k < |s.segs| && s.segs[k].base <= a < s.segs[k].stop;
    assert SegOk(s, k);
    assert !(a <= s.segs[k].stop < End(s.chunks, a));
  }

  /** The bytes of a live chunk or mapping behind its tags, at least as many as were asked for. */
  ghost function Usable(s: State, m: nat): (n: nat)
    requires m in s.live && PayloadOk(s, m)
  {
    var p := m - CHUNK_OVERHEAD;
    if p in s.chunks then Minus(s.chunks[p].size, CHUNK_OVERHEAD) else Minus(s.direct[p], CHUNK_OVERHEAD + MMAP_FOOT_PAD)
  }

  function Minus(a: nat, b: nat): (r: nat) {
    if a < b then 0 else a - b
  }

  /** No two live payloads share a usable byte, and the tags before each lie outside the other. */
  lemma UsableDisjoint(s: State, m: nat, n: nat, orphans: set<nat>)
    requires Inv(s, orphans) && m in s.live && n in s.live && m < n
    ensures PayloadOk(s, m) && s.live[m] <= Usable(s, m) && m + Usable(s, m) + CHUNK_OVERHEAD <= n
  {
    assert PayloadOk(s, m) && PayloadOk(s, n);
    var p, q := m - CHUNK_OVERHEAD, n - CHUNK_OVERHEAD;
    if p in s.chunks { ChunkNotDirect(s, p); }
    if q in s.chunks { ChunkNotDirect(s, q); }
    if p in s.chunks && q in s.chunks {
      assert Apart(s.chunks, p, q);
    } else if p in s.chunks {
      var k := ChunkSegment(s, p);
      assert DirectApart(s, k, q);
    } else if q in s.chunks {
      var k := ChunkSegment(s, q);
      assert DirectApart(s, k, p);
    } else {
      assert DirectsApart(s, p, q);
    }
  }

  /** No two live payloads share a byte. */
  lemma PayloadsDisjoint(s: State, m: nat, n: nat, orphans: set<nat>)
    requires Inv(s, orphans) && m in s.live && n in s.live && m < n
    ensures m + s.live[m] + CHUNK_OVERHEAD <= n
  {
    UsableDisjoint(s, m, n, orphans);
  }

  /** Byte x holds no bookkeeping: no tags, no free chunk or segment record, no trailer of a segment or direct mapping. */
  ghost predicate Plain(s: State, x: nat) {
    && (forall b {:trigger b in s.chunks} | b in s.chunks :: PlainIn(s, b, x))
    && (forall k: nat {:trigger s.segs[k]} | k < |s.segs| :: !(s.segs[k].stop <= x < s.segs[k].base + s.segs[k].size))
    && (forall p {:trigger p in s.direct} | p in s.direct ::
         !(p <= x < p + CHUNK_OVERHEAD) && !(p + s.direct[p] - MMAP_FOOT_PAD <= x < p + s.direct[p]))
  }

  ghost predicate PlainIn(s: State, b: nat, x: nat)
    requires b in s.chunks
  {
    b <= x < End(s.chunks, b) ==> s.chunks[b].inuse && b !in s.records && b + CHUNK_OVERHEAD <= x
  }

  /** The allocator keeps nothing of its own inside a live payload. */
  lemma PayloadsPlain(s: State, m: nat, x: nat, orphans: set<nat>)
    requires Inv(s, orphans) && m in s.live && m <= x < m + s.live[m]
    ensures Plain(s, x)
  {
    assert PayloadOk(s, m);
    var p := m - CHUNK_OVERHEAD;
    if p in s.chunks {
      ChunkNotDirect(s, p);
      PlainChunk(s, p, x);
    } else {
      PlainDirect(s, p, x);
    }
  }

  lemma PlainChunk(s: State, p: nat, x: nat)
    requires Layout(s.chunks, s.segs) && Segments(s) && p in s.chunks && s.chunks[p].inuse && p !in s.records
    requires p + CHUNK_OVERHEAD <= x < End(s.chunks, p)
    ensures Plain(s, x)
  {
    var j := ChunkSegment(s, p);
    forall b | b in s.chunks ensures PlainIn(s, b, x) {
      assert Apart(s.chunks, p, b) && Apart(s.chunks, b, p);
    }
    forall k: nat | k < |s.segs| ensures !(s.segs[k].stop <= x < s.segs[k].base + s.segs[k].size) {
      assert SegOk(s, k);
      assert j < k ==> SegsApart(s.segs[j], s.segs[k]);
      assert k < j ==> SegsApart(s.segs[k], s.segs[j]);
    }
    forall q | q in s.direct ensures !(q <= x < q + s.direct[q]) { assert DirectApart(s, j, q); }
    forall q | q in s.direct ensures MMAP_FOOT_PAD < s.direct[q] { assert DirectOk(s, q); }
  }

  lemma PlainDirect(s: State, p: nat, x: nat)
    requires Layout(s.chunks, s.segs) && Segments(s) && p in s.direct
    requires p + CHUNK_OVERHEAD <= x < p + s.direct[p] - MMAP_FOOT_PAD
    ensures Plain(s, x)
  {
    forall k: nat | k < |s.segs| ensures !(s.segs[k].base <= x < s.segs[k].base + s.segs[k].size) {
      assert DirectApart(s, k, p);
    }
    forall b | b in s.chunks ensures PlainIn(s, b, x) { var k := ChunkSegment(s, b); }
    forall k: nat | k < |s.segs| ensures s.segs[k].base < s.segs[k].stop { assert SegOk(s, k); }
    forall q | q in s.direct
      ensures !(q <= x < q + CHUNK_OVERHEAD) && !(q + s.direct[q] - MMAP_FOOT_PAD <= x < q + s.direct[q])
    {
      assert DirectOk(s, q) && (q != p ==> DirectsApart(s, p, q));
    }
  }

  /** Every byte of a segment before its stop belongs to exactly one chunk. */
  lemma Tiled(s: State, k: nat, x: nat, orphans: set<nat>) returns (a: nat)
    requires Inv(s, orphans) && k < |s.segs| && s.segs[k].base <= x < s.segs[k].stop
    ensures a in s.chunks && a <= x < End(s.chunks, a)
    ensures forall b | b in s.chunks && b <= x < End(s.chunks, b) :: b == a
  {
    assert SegOk(s, k);
    a := TiledFrom(s, k, s.segs[k].base, x);
    forall b | b in s.chunks && b <= x < End(s.chunks, b)
      ensures b == a
    {
      assert Apart(s.chunks, a, b) && Apart(s.chunks, b, a);
    }
  }

  lemma {:induction false} TiledFrom(s: State, k: nat, b: nat, x: nat) returns (a: nat)
    requires Layout(s.chunks, s.segs) && Segments(s) && k < |s.segs| && s.segs[k].base <= b <= x < s.segs[k].stop && b in s.chunks
    ensures a in s.chunks && a <= x < End(s.chunks, a)
    decreases x - b
  {
    assert Placed(s.chunks, s.segs, b);
    var e := End(s.chunks, b);
    if x < e {
      a := b;
    } else {
      if e !in s.chunks {
        var j: nat :| j < |s.segs| && s.segs[j].stop == e;
        OneStop(s, j, k, e);
      }
      a := TiledFrom(s, k, e, x);
    }
  }

  /** A stop that lies inside a segment is that segment's own. */
  lemma OneStop(s: State, j: nat, k: nat, e: nat)
    requires Segments(s) && j < |s.segs| && k < |s.segs| && s.segs[j].stop == e && s.segs[k].base < e <= s.segs[k].stop
    ensures j == k
  {
    assert SegOk(s, j) && SegOk(s, k);
    assert j < k ==> SegsApart(s.segs[j], s.segs[k]);
    assert k < j ==> SegsApart(s.segs[k], s.segs[j]);
  }

  /** Free memory is coalesced and the bins know of all of it: a free chunk has neighbours in use and is top, dv or binned. */
  lemma FreeIsFindable(s: State, a: nat, orphans: set<nat>)
    requires Inv(s, orphans) && a in s.chunks && !s.chunks[a].inuse
    ensures a == s.top || a == s.dv || (a in s.free && s.free[a] == s.chunks[a].size)
    ensures forall b | b in s.chunks && (End(s.chunks, b) == a || b == End(s.chunks, a)) :: s.chunks[b].inuse
  {
    FreeChunk(s, a, orphans);
    forall b | b in s.chunks && (End(s.chunks, b) == a || b == End(s.chunks, a))
      ensures s.chunks[b].inuse
    {
      assert CalmAt(s.chunks, b) && CalmAt(s.chunks, a);
    }
  }
}
