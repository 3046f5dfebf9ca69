/** Fixed-point conversion between clock ticks and nanoseconds: 128-bit products and binary fractions. */
module FreqFraction {
  import opened Words

  const HALF: nat := 0x1_0000_0000

  datatype U128 = U128(lo: nat, hi: nat)

  ghost function Value(x: U128): (v: nat) {
    x.hi * WORD + x.lo
  }

  /** Partial products added up in 64-bit arithmetic. */
  function Join(z0: nat, z1: nat, z2: nat, z3: nat): (r: U128) {
    var t := (z0 / HALF + z1 % HALF + z2 % HALF) % WORD;
    U128(z0 % HALF + t * HALF % WORD, (z3 + z1 / HALF + z2 / HALF + t / HALF) % WORD)
  }

  /** The product of two words from products of their halves. */
  function Mul64(a: nat, b: nat): (r: U128)
    requires a < WORD && b < WORD
  {
    var a0, a1, b0, b1 := a % HALF, a / HALF, b % HALF, b / HALF;
    Join(a0 * b0 % WORD, a0 * b1 % WORD, a1 * b0 % WORD, a1 * b1 % WORD)
  }

  lemma MulMono(a: nat, b: nat, d: nat)
    requires a <= b
    ensures a * d <= b * d
  {
    var k: nat := b - a;
    assert b * d == a * d + k * d;
  }

  lemma MulMonoStrict(a: nat, b: nat, d: nat)
    requires a < b && d > 0
    ensures a * d < b * d
  {
    var k: nat := b - a;
    assert b * d == a * d + k * d && k * d >= d by { MulMono(1, k, d); }
  }

  lemma MulCancel(a: nat, b: nat, d: nat)
    requires a * d <= b * d && d > 0
    ensures a <= b
  {
    if b < a { MulMonoStrict(b, a, d); }
  }

  lemma ProductBound(x: nat, y: nat)
    requires x < HALF && y < HALF
    ensures x * y <= 0xFFFF_FFFE_0000_0001
  {
    MulMono(x, HALF - 1, y);
    MulMono(y, HALF - 1, HALF - 1);
    assert x * y <= (HALF - 1) * y == y * (HALF - 1) <= (HALF - 1) * (HALF - 1);
  }

  lemma Halves(x: nat)
    ensures x == x / HALF * HALF + x % HALF && x % HALF < HALF && (x < WORD ==> x / HALF < HALF)
  {
  }

  /** No carry is lost. */
  lemma Mul64Exact(a: nat, b: nat)
    requires a < WORD && b < WORD
    ensures var r := Mul64(a, b); r.lo < WORD && r.hi < WORD && Value(r) == a * b
  {
    hide Join;
    var a0, a1, b0, b1 := a % HALF, a / HALF, b % HALF, b / HALF;
    Halves(a);
    Halves(b);
    PartsExact(a0, a1, b0, b1);
  }

  lemma PartsExact(a0: nat, a1: nat, b0: nat, b1: nat)
    requires a0 < HALF && a1 < HALF && b0 < HALF && b1 < HALF
    ensures var r := Join(a0 * b0 % WORD, a0 * b1 % WORD, a1 * b0 % WORD, a1 * b1 % WORD);
      r.lo < WORD && r.hi < WORD && Value(r) == (a1 * HALF + a0) * (b1 * HALF + b0)
  {
    hide Join;
    ProductBound(a0, b0);
    ProductBound(a0, b1);
    ProductBound(a1, b0);
    ProductBound(a1, b1);
    Expand(a1, a0, b1, b0);
    JoinExact(a0 * b0, a0 * b1, a1 * b0, a1 * b1);
  }

  lemma Expand(a1: nat, a0: nat, b1: nat, b0: nat)
    ensures (a1 * HALF + a0) * (b1 * HALF + b0) == a1 * b1 * WORD + (a0 * b1 + a1 * b0) * HALF + a0 * b0
  {
    assert (a1 * HALF + a0) * (b1 * HALF + b0) == (a1 * HALF) * (b1 * HALF) + a0 * (b1 * HALF) + (a1 * HALF) * b0 + a0 * b0;
    assert (a1 * HALF) * (b1 * HALF) == a1 * b1 * (HALF * HALF);
    assert a0 * (b1 * HALF) == a0 * b1 * HALF;
    assert (a1 * HALF) * b0 == a1 * b0 * HALF;
  }

  lemma Small(x: nat)
    requires x < WORD
    ensures x % WORD == x
  {
  }

  /** Adding up the partial products. */
  lemma Combine(z0: nat, z1: nat, z2: nat, z3: nat)
    requires z0 < WORD && z1 <= 0xFFFF_FFFE_0000_0001 && z2 <= 0xFFFF_FFFE_0000_0001 && z3 <= 0xFFFF_FFFE_0000_0001
    ensures var t := z0 / HALF + z1 % HALF + z2 % HALF;
      && t < WORD && z3 + z1 / HALF + z2 / HALF + t / HALF < WORD && z0 % HALF + t * HALF % WORD < WORD
      && (z3 + z1 / HALF + z2 / HALF + t / HALF) * WORD + (z0 % HALF + t * HALF % WORD) == z3 * WORD + (z1 + z2) * HALF + z0
  {
    Halves(z0);
    Halves(z1);
    Halves(z2);
    var t := z0 / HALF + z1 % HALF + z2 % HALF;
    Halves(t);
    DivUnique(t * HALF, WORD, t / HALF, t % HALF * HALF);
  }

  lemma JoinExact(z0: nat, z1: nat, z2: nat, z3: nat)
    requires z0 <= 0xFFFF_FFFE_0000_0001 && z1 <= 0xFFFF_FFFE_0000_0001 && z2 <= 0xFFFF_FFFE_0000_0001 && z3 <= 0xFFFF_FFFE_0000_0001
    ensures var r := Join(z0 % WORD, z1 % WORD, z2 % WORD, z3 % WORD);
      r.lo < WORD && r.hi < WORD && Value(r) == z3 * WORD + (z1 + z2) * HALF + z0
  {
    Small(z0);
    Small(z1);
    Small(z2);
    Small(z3);
    Combine(z0, z1, z2, z3);
    var t := z0 / HALF + z1 % HALF + z2 % HALF;
    Small(t);
    Small(z3 + z1 / HALF + z2 / HALF + t / HALF);
  }

  // ----- shifting

  function Quotient(x: nat, d: nat): (q: nat)
    requires d > 0
  {
    x / d
  }

  function Shr(x: nat, n: nat): (r: nat) {
    Quotient(x, Pow2(n))
  }

  /** x shifted left as a 64-bit word. */
  function Shl(x: nat, n: nat): (r: nat) {
    x * Pow2(n) % WORD
  }

  /** A double word shifted right, by words. */
  function U128Shr(x: U128, shift: nat): (r: U128) {
    if shift == 0 then x
    else if shift < 64 then U128(Shr(x.lo, shift) + Shl(x.hi, 64 - shift), Shr(x.hi, shift))
    else if shift < 128 then U128(Shr(x.hi, shift - 64), 0)
    else U128(0, 0)
  }

  lemma DivParts(x: nat, d: nat) returns (q: nat, r: nat)
    requires d > 0
    ensures q == x / d && r == x % d && r < d && x == q * d + r
  {
    q, r := x / d, x % d;
  }

  lemma ShrExact(x: U128, shift: nat)
    requires x.lo < WORD && x.hi < WORD
    ensures Value(U128Shr(x, shift)) == Value(x) / Pow2(shift)
    ensures U128Shr(x, shift).lo < WORD
  {
    Pow2Of64();
    if shift == 0 {
      assert Pow2(0) == 1;
    } else if shift < 64 {
      ShrShort(x, shift);
    } else if shift < 128 {
      ShrLong(x, shift);
    } else {
      Pow2Add(64, 64);
      Pow2Mono(128, shift);
      MulMono(x.hi + 1, WORD, WORD);
      DivUnique(Value(x), Pow2(shift), 0, Value(x));
    }
  }

  lemma ShrShort(x: U128, shift: nat)
    requires x.lo < WORD && x.hi < WORD && 0 < shift < 64 && Pow2(64) == WORD
    ensures var r := U128Shr(x, shift); Value(r) == Value(x) / Pow2(shift) && r.lo < WORD
  {
    var p, c := Pow2(shift), Pow2(64 - shift);
    Pow2Add(shift, 64 - shift);
    hide Pow2;
    var q, b := DivParts(x.hi, p);
    var m, l := DivParts(x.lo, p);
    ShortArithmetic(x.hi, x.lo, p, c, q, b, m, l);
  }

  /** The bits of both words, split at p. */
  lemma ShortArithmetic(hi: nat, lo: nat, p: nat, c: nat, q: nat, b: nat, m: nat, l: nat)
    requires p > 0 && c > 0 && p * c == WORD && lo < WORD && hi == q * p + b && b < p && lo == m * p + l && l < p
    ensures hi * c % WORD == b * c && m + b * c < WORD && (hi * WORD + lo) / p == q * WORD + (m + b * c)
  {
    ShortBounds(p, c, b, m, lo, l);
    ShortShift(hi, p, c, q, b);
    ShortSum(hi, lo, p, c, q, b, m, l);
    DivUnique(hi * WORD + lo, p, q * WORD + (m + b * c), l);
  }

  lemma ShortBounds(p: nat, c: nat, b: nat, m: nat, lo: nat, l: nat)
    requires p > 0 && c > 0 && p * c == WORD && lo < WORD && b < p && lo == m * p + l
    ensures b * c + c <= WORD && m < c && m + b * c < WORD
  {
    MulMono(b + 1, p, c);
    assert (b + 1) * c == b * c + c;
    assert c * p == WORD;
    if c <= m { MulMono(c, m, p); }
  }

  lemma ShortShift(hi: nat, p: nat, c: nat, q: nat, b: nat)
    requires p * c == WORD && hi == q * p + b && b * c + c <= WORD && c > 0
    ensures hi * c % WORD == b * c
  {
    assert hi * c == q * (p * c) + b * c;
    DivUnique(hi * c, WORD, q, b * c);
  }

  lemma ShortSum(hi: nat, lo: nat, p: nat, c: nat, q: nat, b: nat, m: nat, l: nat)
    requires p * c == WORD && hi == q * p + b && lo == m * p + l
    ensures hi * WORD + lo == (q * WORD + (m + b * c)) * p + l
  {
    assert hi * WORD == q * p * WORD + b * WORD;
    assert b * WORD == b * c * p;
    assert (q * WORD + (m + b * c)) * p == q * WORD * p + m * p + b * c * p;
    assert q * p * WORD == q * WORD * p;
  }

  lemma ShrLong(x: U128, shift: nat)
    requires x.lo < WORD && x.hi < WORD && 64 <= shift < 128 && Pow2(64) == WORD
    ensures var r := U128Shr(x, shift); Value(r) == Value(x) / Pow2(shift) && r.lo < WORD
  {
    var p := Pow2(shift - 64);
    Pow2Add(64, shift - 64);
    hide Pow2;
    var q, b := DivParts(x.hi, p);
    LongArithmetic(x.hi, x.lo, p, q, b);
  }

  lemma LongArithmetic(hi: nat, lo: nat, p: nat, q: nat, b: nat)
    requires p > 0 && lo < WORD && hi == q * p + b && b < p
    ensures (hi * WORD + lo) / (WORD * p) == q && q <= hi
  {
    MulMono(b + 1, p, WORD);
    assert (b + 1) * WORD == b * WORD + WORD;
    assert (q * p + b) * WORD == q * (WORD * p) + b * WORD;
    DivUnique(hi * WORD + lo, WORD * p, q, b * WORD + lo);
    MulMono(1, p, q);
  }

  // ----- fractions

  /** The fraction f / 2^s. */
  datatype Fraction = Fraction(f: nat, s: nat)

  /** Multiplication by a word; the product must fit, as the source asserts. */
  function Times(x: Fraction, rhs: nat): (r: nat)
    requires x.f < WORD && rhs < WORD
  {
    U128Shr(Mul64(x.f, rhs), x.s).lo
  }

  predicate Fits(x: Fraction, rhs: nat) {
    x.f * rhs / Pow2(x.s) < WORD
  }

  /** The product is rounded down, with nothing lost on the way. */
  lemma TimesExact(x: Fraction, rhs: nat)
    requires x.f < WORD && rhs < WORD && Fits(x, rhs)
    ensures Times(x, rhs) == x.f * rhs / Pow2(x.s) && U128Shr(Mul64(x.f, rhs), x.s).hi == 0
  {
    hide Mul64, U128Shr, Pow2;
    Mul64Exact(x.f, rhs);
    var m := Mul64(x.f, rhs);
    ShrExact(m, x.s);
    var r := U128Shr(m, x.s);
    HighZero(r.hi, r.lo);
  }

  lemma HighZero(hi: nat, lo: nat)
    requires hi * WORD + lo < WORD
    ensures hi == 0
  {
  }

  /** ceil_log2 of the source: the number of bits of x. */
  function BitLength(x: nat): (n: nat)
    ensures x > 0 ==> n > 0
  {
    if x == 0 then 0 else 1 + BitLength(x / 2)
  }

  lemma {:induction false} BitLengthBounds(x: nat)
    requires x > 0
    ensures Pow2(BitLength(x) - 1) <= x < Pow2(BitLength(x))
  {
    if x == 1 {
      assert BitLength(1) == 1 && Pow2(0) == 1 && Pow2(1) == 2;
    } else {
      BitLengthBounds(x / 2);
      assert Pow2(BitLength(x)) == 2 * Pow2(BitLength(x) - 1);
      assert Pow2(BitLength(x / 2)) == 2 * Pow2(BitLength(x / 2) - 1);
    }
  }

  /** The binary fraction for num / denom; none if the numerator is zero or too large for the source's shift. */
  function ComputeFreqFraction(num: nat, denom: nat): (x: Fraction)
    requires 0 < num && BitLength(num) <= 63 && 0 < denom
  {
    var s := 63 - BitLength(num);
    Fraction(Shl(num, s) / denom, s)
  }

  /** The numerator is that of the quotient at the chosen scale, rounded down; the shift does not overflow. */
  lemma ComputedExact(num: nat, denom: nat)
    requires 0 < num && BitLength(num) <= 63 && 0 < denom
    ensures var x := ComputeFreqFraction(num, denom);
      x.f == num * Pow2(x.s) / denom && x.f < Pow2(63) && x.f * denom <= num * Pow2(x.s) < (x.f + 1) * denom
  {
    hide Pow2, BitLength;
    var s := 63 - BitLength(num);
    ShlExact(num, s);
    hide Shl;
    DivBounds(num * Pow2(s), denom);
  }

  lemma ShlExact(num: nat, s: nat)
    requires 0 < num && BitLength(num) + s == 63
    ensures Shl(num, s) == num * Pow2(s) < Pow2(63)
  {
    hide BitLength, Pow2;
    BitLengthBounds(num);
    Pow2Add(BitLength(num), s);
    Below64();
    MulMonoStrict(num, Pow2(BitLength(num)), Pow2(s));
    Small(num * Pow2(s));
  }

  lemma DivBounds(x: nat, d: nat)
    requires d > 0
    ensures x / d * d <= x < (x / d + 1) * d && 0 <= x / d <= x
  {
    var f, r := DivParts(x, d);
    assert (f + 1) * d == f * d + d;
    MulMono(1, d, f);
  }

  /** A converted value never exceeds the exact one and falls short of it by less than 1 + rhs / 2^s. */
  lemma ConversionError(num: nat, denom: nat, rhs: nat)
    requires 0 < num && BitLength(num) <= 63 && 0 < denom && rhs < WORD && Fits(ComputeFreqFraction(num, denom), rhs)
    ensures var x := ComputeFreqFraction(num, denom);
      && x.f < WORD && Times(x, rhs) * denom <= num * rhs
      && num * rhs * Pow2(x.s) < (Times(x, rhs) + 1) * denom * Pow2(x.s) + denom * rhs
  {
    hide Times, ComputeFreqFraction, Pow2, Fits;
    ComputedExact(num, denom);
    var x := ComputeFreqFraction(num, denom);
    var q := TimesBounds(x, rhs);
    ErrorArithmetic(num, denom, rhs, x.f, Pow2(x.s), q);
  }

  lemma TimesBounds(x: Fraction, rhs: nat) returns (q: nat)
    requires x.f < Pow2(63) && rhs < WORD && Fits(x, rhs)
    ensures x.f < WORD && q == Times(x, rhs) && q * Pow2(x.s) <= x.f * rhs < (q + 1) * Pow2(x.s)
  {
    hide Times, Pow2, Fits;
    Below64();
    TimesExact(x, rhs);
    q := Times(x, rhs);
    DivBounds(x.f * rhs, Pow2(x.s));
  }

  lemma Below64()
    ensures Pow2(63) < WORD
  {
    Pow2Of64();
    assert Pow2(64) == 2 * Pow2(63);
  }

  lemma ErrorArithmetic(num: nat, denom: nat, rhs: nat, f: nat, p: nat, q: nat)
    requires p > 0 && denom > 0 && f * denom <= num * p < (f + 1) * denom && q * p <= f * rhs < (q + 1) * p
    ensures q * denom <= num * rhs
    ensures num * rhs * p < (q + 1) * denom * p + denom * rhs
  {
    ErrorAbove(num, denom, rhs, f, p, q);
    ErrorBelow(num, denom, rhs, f, p, q);
  }

  lemma ErrorAbove(num: nat, denom: nat, rhs: nat, f: nat, p: nat, q: nat)
    requires p > 0 && f * denom <= num * p && q * p <= f * rhs
    ensures q * denom <= num * rhs
  {
    MulMono(q * p, f * rhs, denom);
    MulMono(f * denom, num * p, rhs);
    assert q * p * denom == q * denom * p && f * rhs * denom == f * denom * rhs && num * p * rhs == num * rhs * p;
    MulCancel(q * denom, num * rhs, p);
  }

  lemma ErrorBelow(num: nat, denom: nat, rhs: nat, f: nat, p: nat, q: nat)
    requires num * p < (f + 1) * denom && f * rhs < (q + 1) * p && denom > 0
    ensures num * rhs * p < (q + 1) * denom * p + denom * rhs
  {
    MulMono(num * p, (f + 1) * denom, rhs);
    MulMonoStrict(f * rhs, (q + 1) * p, denom);
    assert num * p * rhs == num * rhs * p;
    assert (f + 1) * denom * rhs == f * rhs * denom + denom * rhs;
    assert (q + 1) * p * denom == (q + 1) * denom * p;
  }

  /** Multiplication is monotone. */
  lemma TimesMonotone(x: Fraction, a: nat, b: nat)
    requires x.f < WORD && a <= b < WORD && Fits(x, b)
    ensures Fits(x, a) && Times(x, a) <= Times(x, b)
  {
    hide Times;
    MulMono(a, b, x.f);
    assert a * x.f == x.f * a && b * x.f == x.f * b;
    DivMono(x.f * a, x.f * b, Pow2(x.s));
    TimesExact(x, a);
    TimesExact(x, b);
  }

  lemma DivMono(a: nat, b: nat, d: nat)
    requires a <= b && d > 0
    ensures a / d <= b / d
  {
    var q, r := DivParts(a, d);
    var m, n := DivParts(b, d);
    assert (m + 1) * d == m * d + d;
    if m < q { MulMono(m + 1, q, d); }
  }

  /** The way back from a result that fits also fits. */
  lemma BackFits(num: nat, denom: nat, ns: nat, ticks: nat)
    requires 0 < num && BitLength(num) <= 63 && 0 < denom && BitLength(denom) <= 63 && ns < WORD
    requires Fits(ComputeFreqFraction(num, denom), ns) && ComputeFreqFraction(num, denom).f < WORD
    requires ticks == Times(ComputeFreqFraction(num, denom), ns) && ticks * denom <= num * ns
    ensures ticks < WORD && Fits(ComputeFreqFraction(denom, num), ticks) && ComputeFreqFraction(denom, num).f < WORD
  {
    hide Times, ComputeFreqFraction, BitLength, Pow2, Fits;
    TicksFit(ComputeFreqFraction(num, denom), ns);
    Below64();
    ComputedExact(denom, num);
    var x := ComputeFreqFraction(denom, num);
    BackBelow(num, denom, ns, ticks, x.f, Pow2(x.s));
    FitsBelow(x, ticks, ns);
  }

  lemma TicksFit(x: Fraction, ns: nat)
    requires x.f < WORD && ns < WORD && Fits(x, ns)
    ensures Times(x, ns) < WORD
  {
    hide Times;
    TimesExact(x, ns);
  }

  lemma FitsBelow(x: Fraction, rhs: nat, bound: nat)
    requires x.f * rhs / Pow2(x.s) <= bound < WORD
    ensures Fits(x, rhs)
  {
  }

  lemma BackBelow(num: nat, denom: nat, ns: nat, ticks: nat, f: nat, p: nat)
    requires num > 0 && p > 0 && f * num <= denom * p && ticks * denom <= num * ns
    ensures f * ticks / p <= ns
  {
    var q := f * ticks / p;
    DivBounds(f * ticks, p);
    ErrorAbove(denom, num, ticks, f, p, q);
    Transfer(q, num, denom, ticks, ns);
  }

  lemma Transfer(q: nat, num: nat, denom: nat, ticks: nat, ns: nat)
    requires q * num <= denom * ticks && ticks * denom <= num * ns && num > 0
    ensures q <= ns
  {
    assert denom * ticks == ticks * denom && num * ns == ns * num;
    MulCancel(q, ns, num);
  }

  /** Converting to ticks and back never gives a later time. */
  lemma RoundTripNotLater(num: nat, denom: nat, ns: nat)
    requires 0 < num && BitLength(num) <= 63 && 0 < denom && BitLength(denom) <= 63 && ns < WORD
    requires Fits(ComputeFreqFraction(num, denom), ns)
    ensures ComputeFreqFraction(num, denom).f < WORD && ComputeFreqFraction(denom, num).f < WORD
    ensures var ticks := Times(ComputeFreqFraction(num, denom), ns);
      ticks < WORD && Fits(ComputeFreqFraction(denom, num), ticks) && Times(ComputeFreqFraction(denom, num), ticks) <= ns
  {
    hide Times, ComputeFreqFraction, Fits;
    ConversionError(num, denom, ns);
    var ticks := Times(ComputeFreqFraction(num, denom), ns);
    BackFits(num, denom, ns, ticks);
    ConversionError(denom, num, ticks);
    var back := Times(ComputeFreqFraction(denom, num), ticks);
    assert back * num <= denom * ticks <= num * ns;
    MulCancel(back, ns, num);
  }
}
