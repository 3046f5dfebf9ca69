/** The loader's page bitmap, with a word at a time marked where possible. */
module LoaderBitmap {
  import opened Words

  /** A 64-bit word as the set of its one bits. */
  type Word = w: set<nat> | forall b | b in w :: b < 64

  predicate IsBit(b: nat) { b < 64 }

  function AllOnes(): (w: Word) {
    set b: nat | b < 64 && IsBit(b)
  }

  class Bitmap {
    const words: array<Word>

    ghost predicate Bit(pos: nat)
      reads words
    {
      pos / 64 < words.Length && pos % 64 in words[pos / 64]
    }

    constructor (size: nat)
      ensures words.Length == size && fresh(words) && forall pos: nat :: !Bit(pos)
    {
      words := new Word[size](_ => {});
    }

    method MarkBit(pos: nat, b: bool)
      requires pos / 64 < words.Length
      modifies words
      ensures forall p: nat :: Bit(p) == if p == pos then b else old(Bit(p))
    {
      var l, i := pos % 64, pos / 64;
      if b {
        words[i] := words[i] + {l};
      } else {
        words[i] := words[i] - {l};
      }
      forall p: nat ensures Bit(p) == if p == pos then b else old(Bit(p)) { SamePlace(p, pos); }
    }

    method ReadBit(pos: nat) returns (b: bool)
      requires pos / 64 < words.Length
      ensures b == Bit(pos)
    {
      b := pos % 64 in words[pos / 64];
    }

    /** Mark pages one by one. */
    method MarkEach(base: nat, n: nat, usable: bool)
      requires base + n <= 64 * words.Length
      modifies words
      ensures forall p: nat :: Bit(p) == if base <= p < base + n then usable else old(Bit(p))
    {
      var i := 0;
      while i < n
        invariant i <= n && forall p: nat :: Bit(p) == if base <= p < base + i then usable else old(Bit(p))
      {
        WordOf(base + i, words.Length);
        MarkBit(base + i, usable);
        i := i + 1;
      }
    }

    /** Mark whole words from an aligned page on, while more than 64 pages are left. */
    method MarkWords(base: nat, n: nat, usable: bool) returns (base': nat, n': nat)
      requires base % 64 == 0 && base + n <= 64 * words.Length
      modifies words
      ensures base <= base' && base' + n' == base + n && n' <= 64
      ensures forall p: nat :: Bit(p) == if base <= p < base' then usable else old(Bit(p))
    {
      base', n' := base, n;
      var pattern := if usable then AllOnes() else {};
      while n' > 64
        invariant base <= base' && base' + n' == base + n && base' % 64 == 0
        invariant forall p: nat :: Bit(p) == if base <= p < base' then usable else old(Bit(p))
      {
        ghost var was := words[..];
        var k := base' / 64;
        WordOf(base', words.Length);
        words[k] := pattern;
        forall p: nat ensures Bit(p) == if base <= p < base' + 64 then usable else old(Bit(p)) {
          InWord(p, k);
          assert p / 64 < words.Length && p / 64 != k ==> words[p / 64] == was[p / 64];
        }
        base', n' := base' + 64, n' - 64;
      }
    }

    /** Mark a range of pages: the same as setting every bit of it, and nothing else. */
    method Mark(base: nat, size: nat, usable: bool)
      requires base / 4096 + size / 4096 <= 64 * words.Length
      modifies words
      ensures forall p: nat :: Bit(p) == if base / 4096 <= p < base / 4096 + size / 4096 then usable else old(Bit(p))
    {
      var first, n := base / 4096, size / 4096;
      if n < 64 {
        MarkEach(first, n, usable);
      } else {
        var b, m := first, n;
        while b % 64 != 0 && m > 0
          invariant first <= b && b + m == first + n
          invariant forall p: nat :: Bit(p) == if first <= p < b then usable else old(Bit(p))
          decreases m
        {
          WordOf(b, words.Length);
          MarkBit(b, usable);
          b, m := b + 1, m - 1;
        }
        if b % 64 == 0 {
          b, m := MarkWords(b, m, usable);
        }
        MarkEach(b, m, usable);
      }
    }

    /**
     * Take the lowest free page from word 4 upward.  If there is none the result is page 0, which is
     * marked as taken.
     */
    method AllocPage() returns (addr: nat)
      requires words.Length > 0
      modifies words
      ensures addr % 4096 == 0 && forall p: nat :: Bit(p) == (p != addr / 4096 && old(Bit(p)))
      ensures addr / 4096 != 0 ==> addr / 4096 >= 256 && old(Bit(addr / 4096)) && forall p: nat | 256 <= p < addr / 4096 :: !old(Bit(p))
      ensures addr == 0 ==> forall p: nat | 256 <= p :: !old(Bit(p))
    {
      var page := 0;
      var i := 4;
      while i < words.Length && page == 0
        invariant 4 <= i && (page == 0 ==> forall p: nat | 256 <= p < 64 * i :: !Bit(p))
        invariant page != 0 ==> page >= 256 && page / 64 < words.Length && Bit(page) && forall p: nat | 256 <= p < page :: !Bit(p)
        modifies {}
      {
        page := FirstInWord(i);
        i := i + 1;
      }
      if page == 0 {
        forall p: nat | 256 <= p ensures !Bit(p) { Beyond(p, words.Length); }
      }
      assert page / 64 < words.Length;
      MarkBit(page, false);
      addr := page * 4096;
      PageBack(page);
      assert addr / 4096 == page;
    }

    /** The lowest set bit of word i as a page, or 0. */
    method FirstInWord(i: nat) returns (page: nat)
      requires 4 <= i < words.Length && forall p: nat | 256 <= p < 64 * i :: !Bit(p)
      ensures page == 0 ==> forall p: nat | 256 <= p < 64 * i + 64 :: !Bit(p)
      ensures page != 0 ==> page >= 256 && page / 64 < words.Length && Bit(page) && forall p: nat | 256 <= p < page :: !Bit(p)
    {
      page := 0;
      if words[i] != {} {
        var j := 0;
        while j < 64
          invariant j <= 64 && forall p: nat | 256 <= p < 64 * i + j :: !Bit(p)
        {
          WordPart(i, j);
          var b := ReadBit(i * 64 + j);
          if b {
            return i * 64 + j;
          }
          j := j + 1;
        }
      } else {
        forall p: nat | 64 * i <= p < 64 * i + 64 ensures !Bit(p) { InWord(p, i); }
      }
    }
  }

  /** With no page free, the allocator hands out page 0. */
  method NoneFreeExample() returns (addr: nat)
    ensures addr == 0
  {
    var b := new Bitmap(16);
    addr := b.AllocPage();
  }

  lemma SamePlace(p: nat, q: nat)
    ensures p == q <==> p / 64 == q / 64 && p % 64 == q % 64
  {
  }

  lemma WordOf(p: nat, n: nat)
    requires p < 64 * n
    ensures p / 64 < n
  {
  }

  lemma InWord(p: nat, k: nat)
    ensures p / 64 == k <==> 64 * k <= p < 64 * k + 64
    ensures p % 64 < 64
  {
  }

  lemma WordPart(i: nat, j: nat)
    requires j < 64
    ensures (i * 64 + j) / 64 == i && (i * 64 + j) % 64 == j
  {
    DivUnique(i * 64 + j, 64, i, j);
  }

  lemma Beyond(p: nat, n: nat)
    ensures p >= 64 * n ==> p / 64 >= n
  {
  }

  lemma PageBack(page: nat)
    ensures page * 4096 / 4096 == page && page * 4096 % 4096 == 0
  {
    DivUnique(page * 4096, 4096, page, 0);
  }
}
