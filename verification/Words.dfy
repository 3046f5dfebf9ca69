/** Machine words as bounded integers: powers of two, 64-bit wrap-around and bit extraction. */
module Words {

  const WORD: nat := 0x1_0000_0000_0000_0000
  const TOP_BIT: nat := 0x8000_0000_0000_0000

  function Pow2(n: nat): (p: nat)
    ensures p >= 1
  {
    if n == 0 then 1 else 2 * Pow2(n - 1)
  }

  /** Unsigned 64-bit subtraction, which wraps modulo 2^64. */
  function Sub64(a: nat, b: nat): (r: nat)
    requires a < WORD && b < WORD
    ensures r < WORD
    ensures a >= b ==> r == a - b
    ensures a < b ==> r == a + WORD - b
  {
    (a + WORD - b) % WORD
  }

  lemma {:induction false} Pow2Add(a: nat, b: nat)
    ensures Pow2(a + b) == Pow2(a) * Pow2(b)
  {
    if a != 0 {
      Pow2Add(a - 1, b);
      assert Pow2(a + b) == 2 * Pow2(a - 1 + b);
    }
  }

  lemma {:induction false} Pow2Mono(a: nat, b: nat)
    requires a <= b
    ensures Pow2(a) <= Pow2(b)
    decreases b
  {
    if a < b { Pow2Mono(a, b - 1); }
  }

  lemma Pow2Of64()
    ensures Pow2(63) == TOP_BIT && Pow2(64) == WORD
  {
    Pow2Sixteen();
    Pow2Add(16, 16);
    Pow2Add(32, 16);
    Pow2Add(48, 15);
    assert Pow2(16) == 2 * Pow2(15);
    Pow2Add(32, 32);
  }

  lemma Pow2Sixteen()
    ensures Pow2(16) == 0x1_0000
  {
    assert Pow2(4) == 16;
    Pow2Add(4, 4);
    Pow2Add(8, 8);
  }

  /** Bit `n` of `s`. */
  predicate Bit(s: nat, n: nat) {
    s / Pow2(n) % 2 == 1
  }

  lemma SmallMultiple(k: int, d: int, e: int)
    requires -d < e < d && k * d == e
    ensures k == 0
  {
    if k >= 1 { assert false; }
    if k <= -1 { assert false; }
  }

  lemma DivUnique(x: nat, d: nat, q: nat, r: nat)
    requires d > 0 && r < d && x == q * d + r
    ensures x / d == q && x % d == r
  {
    assert x == x / d * d + x % d;
    SmallMultiple(x / d - q, d, r - x % d);
  }

  /** In an aligned block of 2^h sizes, bit h-1 says which half a size lies in. */
  lemma BitSelectsHalf(s: nat, lo: nat, h: nat)
    requires h > 0 && lo % Pow2(h) == 0 && lo <= s < lo + Pow2(h)
    ensures Bit(s, h - 1) <==> s >= lo + Pow2(h - 1)
    ensures lo % Pow2(h - 1) == 0
    ensures (lo + Pow2(h - 1)) % Pow2(h - 1) == 0
  {
    var p := Pow2(h - 1);
    var q := lo / Pow2(h);
    assert lo == q * (2 * p);
    assert lo == (2 * q) * p;
    DivUnique(lo, p, 2 * q, 0);
    DivUnique(lo + p, p, 2 * q + 1, 0) by { assert lo + p == (2 * q + 1) * p; }
    if s < lo + p {
      DivUnique(s, p, 2 * q, s - lo);
    } else {
      DivUnique(s, p, 2 * q + 1, s - lo - p) by { assert s == (2 * q + 1) * p + (s - lo - p); }
    }
  }

  /** `s << n` on 64-bit words. */
  function Shl64(s: nat, n: nat): (k: nat) {
    s * Pow2(n) % WORD
  }

  /** The block of 2^h sizes at lo is aligned. */
  predicate Block(lo: nat, h: nat) {
    lo % Pow2(h) == 0
  }

  /** With h bits left to inspect, the sign bit of the shifted size is bit h-1; one more shift moves on. */
  lemma ShiftedTopBit(s: nat, h: nat)
    requires 1 <= h <= 64
    ensures Shl64(s, 64 - h) / TOP_BIT % 2 == (if Bit(s, h - 1) then 1 else 0)
    ensures 2 * Shl64(s, 64 - h) % WORD == Shl64(s, 65 - h)
  {
    Pow2Of64();
    Pow2Add(h - 1, 64 - h);
    ShiftCore(s, Pow2(h - 1), Pow2(64 - h));
  }

  /** One turn of a descent for s through an aligned block of 2^h sizes. */
  lemma Turn(s: nat, lo: nat, h: nat)
    requires 1 <= h <= 64 && Block(lo, h) && lo <= s < lo + Pow2(h)
    ensures (Shl64(s, 64 - h) / TOP_BIT % 2 == 1) <==> s >= lo + Pow2(h - 1)
    ensures 2 * Shl64(s, 64 - h) % WORD == Shl64(s, 65 - h)
    ensures Block(lo, h - 1) && Block(lo + Pow2(h - 1), h - 1)
    ensures Pow2(h) == 2 * Pow2(h - 1)
  {
    hide Shl64, Bit;
    BitSelectsHalf(s, lo, h);
    ShiftedTopBit(s, h);
  }

  lemma ShiftCore(s: nat, p: nat, m: nat)
    requires p > 0 && m > 0 && p * m == TOP_BIT
    ensures s * m % WORD / TOP_BIT % 2 == s / p % 2
    ensures 2 * (s * m % WORD) % WORD == s * (2 * m) % WORD
  {
    var d := 2 * p;
    var q, r := s / d, s % d;
    assert s == q * d + r;
    ScaledRemainder(s, p, m, q, r);
    TopBitOfRemainder(s, p, m, q, r);
    DoubleShift(s, m, r);
  }

  lemma ScaledRemainder(s: nat, p: nat, m: nat, q: nat, r: nat)
    requires p > 0 && m > 0 && p * m == TOP_BIT
    requires r < 2 * p && s == q * (2 * p) + r
    ensures r * m < WORD && s * m % WORD == r * m
  {
    assert r * m <= (2 * p - 1) * m;
    assert (2 * p - 1) * m == 2 * (p * m) - m;
    assert s * m == (q * (2 * p)) * m + r * m;
    assert (q * (2 * p)) * m == q * (2 * (p * m));
    DivUnique(s * m, WORD, q, r * m);
  }

  lemma TopBitOfRemainder(s: nat, p: nat, m: nat, q: nat, r: nat)
    requires p > 0 && m > 0 && p * m == TOP_BIT
    requires r < 2 * p && s == q * (2 * p) + r
    ensures r * m / TOP_BIT % 2 == s / p % 2
  {
    if r < p {
      assert r * m <= (p - 1) * m;
      DivUnique(r * m, TOP_BIT, 0, r * m);
      DivUnique(s, p, 2 * q, r) by { assert q * (2 * p) == (2 * q) * p; }
    } else {
      assert r * m == p * m + (r - p) * m;
      assert (r - p) * m <= (p - 1) * m;
      DivUnique(r * m, TOP_BIT, 1, (r - p) * m);
      DivUnique(s, p, 2 * q + 1, r - p) by { assert s == (2 * q + 1) * p + (r - p); }
    }
  }

  lemma DoubleShift(s: nat, m: nat, rm: nat)
    requires s * m % WORD == rm * m
    requires rm * m < WORD
    ensures 2 * (rm * m) % WORD == s * (2 * m) % WORD
  {
    var x := s * m;
    var y := rm * m;
    assert x == WORD * (x / WORD) + y;
    assert s * (2 * m) == 2 * x;
    assert 2 * x == WORD * (2 * (x / WORD)) + 2 * y;
    var e := 2 * y / WORD;
    DivUnique(2 * x, WORD, 2 * (x / WORD) + e, 2 * y - e * WORD);
  }
}
