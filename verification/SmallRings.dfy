/** Small bins as circular doubly linked lists through a header. */
module SmallRings {
  import opened Tries

  type Links = map<int, int>

  /** The header of small bin i, which is not the address of a chunk. */
  function Header(i: nat): (h: int) {
    -1 - i
  }

  /** Position k of the ring: the header, the chunks in order, and the header again. */
  ghost function At(h: int, chunks: seq<nat>, k: nat): (n: int)
    requires k <= |chunks| + 1
  {
    if k == 0 || k == |chunks| + 1 then h else chunks[k - 1]
  }

  ghost predicate Linked(fd: Links, bk: Links, a: int, b: int) {
    a in fd && fd[a] == b && b in bk && bk[b] == a
  }

  /** Forward and backward links go around the header and the chunks. */
  ghost predicate Ring(fd: Links, bk: Links, h: int, chunks: seq<nat>) {
    forall k: nat {:trigger At(h, chunks, k)} | k <= |chunks| :: Linked(fd, bk, At(h, chunks, k), At(h, chunks, k + 1))
  }

  /** Links of nodes outside a ring do not matter to it. */
  lemma RingKept(fd: Links, bk: Links, fd': Links, bk': Links, h: int, chunks: seq<nat>)
    requires Ring(fd, bk, h, chunks)
    requires forall a: int | a == h || a in chunks :: (a in fd ==> a in fd' && fd'[a] == fd[a]) && (a in bk ==> a in bk' && bk'[a] == bk[a])
    ensures Ring(fd', bk', h, chunks)
  {
    forall k: nat | k <= |chunks| ensures Linked(fd', bk', At(h, chunks, k), At(h, chunks, k + 1)) {
      assert Linked(fd, bk, At(h, chunks, k), At(h, chunks, k + 1));
      assert k > 0 ==> chunks[k - 1] in chunks;
      assert k < |chunks| ==> chunks[k] in chunks;
    }
  }

  /** The first chunk of a ring follows the header. */
  lemma RingFirst(fd: Links, bk: Links, h: int, chunks: seq<nat>)
    requires Ring(fd, bk, h, chunks) && chunks != []
    ensures h in fd && fd[h] == chunks[0] && chunks[0] in bk && bk[chunks[0]] == h
  {
    assert Linked(fd, bk, At(h, chunks, 0), At(h, chunks, 1));
  }

  /** A new chunk goes between the header and f, the first node of the ring. */
  lemma RingInserted(fd: Links, bk: Links, h: int, chunks: seq<nat>, p: nat, f: int)
    requires h < 0 && p !in chunks && NoDup(chunks) && (chunks != [] ==> Ring(fd, bk, h, chunks)) && f == At(h, chunks, 1)
    ensures Ring(fd[h := p][p := f], bk[f := p][p := h], h, [p] + chunks)
  {
    var c', fd', bk' := [p] + chunks, fd[h := p][p := f], bk[f := p][p := h];
    forall k: nat | k <= |c'| ensures Linked(fd', bk', At(h, c', k), At(h, c', k + 1)) {
      if k > 1 {
        assert Linked(fd, bk, At(h, chunks, k - 1), At(h, chunks, k));
        assert At(h, chunks, k - 1) == At(h, c', k) && At(h, chunks, k) == At(h, c', k + 1);
        assert chunks[k - 2] in chunks;
      }
    }
  }

  /** The neighbours of a chunk in its ring; they are one node exactly if it is alone. */
  lemma RingAround(fd: Links, bk: Links, h: int, chunks: seq<nat>, k: nat)
    requires h < 0 && Ring(fd, bk, h, chunks) && NoDup(chunks) && k < |chunks|
    ensures Linked(fd, bk, chunks[k], At(h, chunks, k + 2)) && Linked(fd, bk, At(h, chunks, k), chunks[k])
    ensures At(h, chunks, k) != chunks[k] && At(h, chunks, k + 2) != chunks[k]
    ensures At(h, chunks, k) == At(h, chunks, k + 2) <==> |chunks| == 1
  {
    assert Linked(fd, bk, At(h, chunks, k + 1), At(h, chunks, k + 2));
    assert Linked(fd, bk, At(h, chunks, k), At(h, chunks, k + 1));
  }

  /** Joining its neighbours takes a chunk out of the ring. */
  lemma RingRemoved(fd: Links, bk: Links, h: int, chunks: seq<nat>, k: nat)
    requires h < 0 && Ring(fd, bk, h, chunks) && NoDup(chunks) && k < |chunks| && |chunks| > 1
    ensures var b, f := At(h, chunks, k), At(h, chunks, k + 2);
      Ring(fd[b := f], bk[f := b], h, chunks[..k] + chunks[k + 1..])
  {
    var b, f := At(h, chunks, k), At(h, chunks, k + 2);
    var c' := chunks[..k] + chunks[k + 1..];
    forall j: nat | j <= |c'| ensures Linked(fd[b := f], bk[f := b], At(h, c', j), At(h, c', j + 1)) {
      var i := if j <= k then j else j + 1;
      assert At(h, c', j) == At(h, chunks, i);
      assert j != k ==> At(h, c', j + 1) == At(h, chunks, i + 1);
      assert Linked(fd, bk, At(h, chunks, i), At(h, chunks, i + 1));
    }
  }

  /** Removing a value from a list without repetitions removes its position. */
  lemma {:induction false} WithoutAt(s: seq<nat>, k: nat)
    requires NoDup(s) && k < |s|
    ensures Without(s, s[k]) == s[..k] + s[k + 1..]
  {
    if k > 0 {
      assert s[1..][k - 1] == s[k];
      WithoutAt(s[1..], k - 1);
      assert s[..k] + s[k + 1..] == [s[0]] + (s[1..][..k - 1] + s[1..][k..]);
    }
  }
}
