/** How a chunk size selects its tree bin, and which sizes each tree bin covers. */
module TreeSizes {
  import opened Words

  const NTREEBINS: nat := 32
  const MIN_LARGE_SIZE: nat := 256

  /** `((y - limit) >> 16) & step` on 32-bit words: `step` exactly when y is below the limit. */
  function ScanStep(y: nat, limit: nat, step: nat): (k: nat)
    requires 1 <= y <= 0xFFFF && 0 < limit <= 0x4000
    requires step == 2 || step == 4 || step == 8
    ensures k == if y < limit then step else 0
  {
    (y + 0x1_0000_0000 - limit) % 0x1_0000_0000 / 0x1_0000 / step % 2 * step
  }

  /** `y << k` for the shift amounts the scan uses. */
  function ShiftLeft(y: nat, k: nat): (r: nat)
    requires k == 0 || k == 2 || k == 4 || k == 8
  {
    if k == 0 then y else if k == 2 then 4 * y else if k == 4 then 16 * y else 256 * y
  }

  /** The generic position-of-highest-bit computation for 1 <= x <= 0xFFFF. */
  function HighBit(x: nat): (k: nat)
    requires 1 <= x <= 0xFFFF
    ensures k <= 15
  {
    var n0 := ScanStep(x, 0x100, 8);
    var y1 := ShiftLeft(x, n0);
    var k1 := ScanStep(y1, 0x1000, 4);
    var y2 := ShiftLeft(y1, k1);
    var k2 := ScanStep(y2, 0x4000, 2);
    var y3 := ShiftLeft(y2, k2);
    14 - (n0 + k1 + k2) + y3 / 0x8000
  }

  lemma HighBitCases(x: nat)
    requires 1 <= x <= 0xFFFF
    ensures 0x1 <= x < 0x2 ==> HighBit(x) == 0
    ensures 0x2 <= x < 0x4 ==> HighBit(x) == 1
    ensures 0x4 <= x < 0x8 ==> HighBit(x) == 2
    ensures 0x8 <= x < 0x10 ==> HighBit(x) == 3
    ensures 0x10 <= x < 0x20 ==> HighBit(x) == 4
    ensures 0x20 <= x < 0x40 ==> HighBit(x) == 5
    ensures 0x40 <= x < 0x80 ==> HighBit(x) == 6
    ensures 0x80 <= x < 0x100 ==> HighBit(x) == 7
    ensures 0x100 <= x < 0x200 ==> HighBit(x) == 8
    ensures 0x200 <= x < 0x400 ==> HighBit(x) == 9
    ensures 0x400 <= x < 0x800 ==> HighBit(x) == 10
    ensures 0x800 <= x < 0x1000 ==> HighBit(x) == 11
    ensures 0x1000 <= x < 0x2000 ==> HighBit(x) == 12
    ensures 0x2000 <= x < 0x4000 ==> HighBit(x) == 13
    ensures 0x4000 <= x < 0x8000 ==> HighBit(x) == 14
    ensures 0x8000 <= x < 0x10000 ==> HighBit(x) == 15
  {
  }

  /** The branch-free scan finds the binary logarithm. */
  lemma HighBitIsLog(x: nat)
    requires 1 <= x <= 0xFFFF
    ensures Pow2(HighBit(x)) <= x < 2 * Pow2(HighBit(x))
  {
    hide HighBit;
    HighBitCases(x);
  }

  function TreeIndex(s: nat): (i: nat)
    ensures i < NTREEBINS
  {
    var x := s / 0x100;
    if x == 0 then 0
    else if x > 0xFFFF then NTREEBINS - 1
    else
      var k := HighBit(x);
      2 * k + s / Pow2(k + 7) % 2
  }

  /** The size of the smallest chunk held in bin i. */
  function MinSizeForTreeIndex(i: nat): (s: nat)
  {
    Pow2(i / 2 + 8) + (if i % 2 == 1 then Pow2(i / 2 + 7) else 0)
  }

  /** The block of sizes that the trie of bin i distinguishes: `SpanBits` bits starting at `SpanLow`. */
  function SpanBits(i: nat): (h: nat)
    requires i < NTREEBINS
    ensures 7 <= h <= 64
  {
    if i == NTREEBINS - 1 then 64 else i / 2 + 7
  }

  function SpanLow(i: nat): (lo: nat)
    requires i < NTREEBINS
  {
    if i == NTREEBINS - 1 then 0 else MinSizeForTreeIndex(i)
  }

  function LeftShiftForTreeIndex(i: nat): (n: nat)
    requires i < NTREEBINS
    ensures n == 64 - SpanBits(i)
  {
    if i == NTREEBINS - 1 then 0 else 63 - (i / 2 + 8 - 2)
  }

  /** Every large size lies between the least size of its bin and the least size of the next. */
  lemma SizeWithinBin(s: nat)
    requires MIN_LARGE_SIZE <= s
    ensures MinSizeForTreeIndex(TreeIndex(s)) <= s
    ensures TreeIndex(s) < NTREEBINS - 1 ==> s < MinSizeForTreeIndex(TreeIndex(s) + 1)
  {
    hide Pow2, HighBit, MinSizeForTreeIndex;
    var x := s / 0x100;
    if x > 0xFFFF {
      LastBinLow();
    } else {
      HighBitIsLog(x);
      var k := HighBit(x);
      ScaleUp(s, k);
      HalfOf(s, Pow2(k + 7));
      MinSizes(k);
      assert TreeIndex(s) == if s < 3 * Pow2(k + 7) then 2 * k else 2 * k + 1;
    }
  }

  lemma LastBinLow()
    ensures MinSizeForTreeIndex(NTREEBINS - 1) <= 0x100_0000
  {
    MinSizes(15);
    Pow2Sixteen();
    Pow2Add(6, 16);
    assert Pow2(6) == 64;
  }

  lemma ScaleUp(s: nat, k: nat)
    requires Pow2(k) <= s / 256 < 2 * Pow2(k)
    ensures 2 * Pow2(k + 7) <= s < 4 * Pow2(k + 7)
  {
    Pow2Add(k, 7);
    assert Pow2(7) == 128;
  }

  lemma MinSizes(k: nat)
    ensures MinSizeForTreeIndex(2 * k) == 2 * Pow2(k + 7)
    ensures MinSizeForTreeIndex(2 * k + 1) == 3 * Pow2(k + 7)
    ensures MinSizeForTreeIndex(2 * k + 2) == 4 * Pow2(k + 7)
  {
    assert (2 * k) / 2 == k && (2 * k + 1) / 2 == k && (2 * k + 2) / 2 == k + 1;
    assert Pow2(k + 8) == 2 * Pow2(k + 7);
    assert Pow2(k + 9) == 2 * Pow2(k + 8);
  }

  lemma HalfOf(s: nat, p: nat)
    requires p > 0 && 2 * p <= s < 4 * p
    ensures s / p % 2 == if s < 3 * p then 0 else 1
  {
    if s < 3 * p { DivUnique(s, p, 2, s - 2 * p); } else { DivUnique(s, p, 3, s - 3 * p); }
  }

  lemma SpanAligned(i: nat)
    requires i < NTREEBINS
    ensures Block(SpanLow(i), SpanBits(i))
    ensures i < NTREEBINS - 1 ==> SpanLow(i) + Pow2(SpanBits(i)) == MinSizeForTreeIndex(i + 1)
  {
    hide Pow2, MinSizeForTreeIndex;
    var p := Pow2(SpanBits(i));
    if i == NTREEBINS - 1 {
      ModZero(0, p);
    } else {
      MinSizes(i / 2);
      if i % 2 == 0 {
        assert i == 2 * (i / 2);
        ModZero(2, p);
      } else {
        assert i == 2 * (i / 2) + 1;
        ModZero(3, p);
      }
    }
  }

  lemma ModZero(c: nat, p: nat)
    requires p > 0
    ensures c * p % p == 0
  {
    DivUnique(c * p, p, c, 0);
  }

  /** Every large size below 2^64 lies in the span of its bin. */
  lemma SizeInSpan(s: nat)
    requires MIN_LARGE_SIZE <= s < WORD
    ensures SpanLow(TreeIndex(s)) <= s < SpanLow(TreeIndex(s)) + Pow2(SpanBits(TreeIndex(s)))
  {
    hide Pow2, TreeIndex, MinSizeForTreeIndex, Block;
    SizeWithinBin(s);
    SpanAligned(TreeIndex(s));
    Pow2Of64();
  }

  lemma {:induction false} MinSizeMono(i: nat, j: nat)
    requires i <= j
    ensures MinSizeForTreeIndex(i) <= MinSizeForTreeIndex(j)
    decreases j
  {
    hide Pow2;
    if i < j {
      MinSizeMono(i, j - 1);
      MinSizes((j - 1) / 2);
    }
  }

  /** Bins are ordered by size: anything in a later bin is larger than anything in an earlier one. */
  lemma BinsOrdered(s: nat, t: nat)
    requires MIN_LARGE_SIZE <= s && MIN_LARGE_SIZE <= t
    requires TreeIndex(s) < TreeIndex(t)
    ensures s < t
  {
    hide TreeIndex, MinSizeForTreeIndex;
    SizeWithinBin(s);
    SizeWithinBin(t);
    MinSizeMono(TreeIndex(s) + 1, TreeIndex(t));
  }
}
