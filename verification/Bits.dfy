/**
 Shifts, masks and bitwise-or on unbounded integers, as Python computes them.

 Shr, Low, Join and Shl go bit by bit, so that proofs about them are inductions over the number of bits. ShrIsDiv,
 JoinIsSum and ShlIsProduct connect them to division, remainder and multiplication by powers of two. BitOr is the
 bitwise or of two integers, of which one may be negative. A BitField is a value with the place where it is or-ed
 into a word; a Layout is a list of such fields, from the highest to the lowest, that occupy different bits, and
 PackReadBack says that each of them can be read back from the word.
 */
module Bits {

  function Pow2(k: nat): (r: nat)
    ensures r >= 1
  {
    if k == 0 then 1 else 2 * Pow2(k - 1)
  }

  lemma {:induction false} Pow2Add(a: nat, b: nat)
    ensures Pow2(a + b) == Pow2(a) * Pow2(b)
  {
    if a == 0 {
    } else {
      Pow2Add(a - 1, b);
      assert Pow2(a + b) == 2 * (Pow2(a - 1) * Pow2(b));
      assert 2 * (Pow2(a - 1) * Pow2(b)) == (2 * Pow2(a - 1)) * Pow2(b);
    }
  }

  lemma {:induction false} Pow2Monotone(a: nat, b: nat)
    requires a <= b
    ensures Pow2(a) <= Pow2(b)
  {
    if a < b {
      Pow2Monotone(a, b - 1);
    }
  }

  /** The powers of two that the page-table format uses. */
  lemma Powers()
    ensures Pow2(1) == 2 && Pow2(2) == 4 && Pow2(3) == 8 && Pow2(4) == 16 && Pow2(5) == 0x20 && Pow2(6) == 0x40
    ensures Pow2(8) == 0x100 && Pow2(9) == 0x200 && Pow2(10) == 0x400 && Pow2(12) == 0x1000
    ensures Pow2(14) == 0x4000 && Pow2(16) == 0x1_0000 && Pow2(20) == 0x10_0000 && Pow2(21) == 0x20_0000
    ensures Pow2(30) == 0x4000_0000 && Pow2(32) == 0x1_0000_0000
    ensures Pow2(36) == 0x10_0000_0000 && Pow2(39) == 0x80_0000_0000 && Pow2(40) == 0x100_0000_0000
    ensures Pow2(42) == 0x400_0000_0000 && Pow2(44) == 0x1000_0000_0000 && Pow2(48) == 0x1_0000_0000_0000
    ensures Pow2(52) == 0x10_0000_0000_0000 && Pow2(53) == 0x20_0000_0000_0000
    ensures Pow2(54) == 0x40_0000_0000_0000 && Pow2(55) == 0x80_0000_0000_0000 && Pow2(59) == 0x800_0000_0000_0000
    ensures Pow2(61) == 0x2000_0000_0000_0000
  {
    assert Pow2(8) == 0x100;
    assert Pow2(16) == 0x1_0000 by { Pow2Add(8, 8); }
    assert Pow2(32) == 0x1_0000_0000 by { Pow2Add(16, 16); }
    assert Pow2(48) == 0x1_0000_0000_0000 by { Pow2Add(16, 32); }
    assert Pow2(12) == 0x1000 by { Pow2Add(8, 4); }
    assert Pow2(14) == 0x4000 by { Pow2Add(12, 2); }
    assert Pow2(20) == 0x10_0000 by { Pow2Add(16, 4); }
    assert Pow2(21) == 0x20_0000 by { Pow2Add(16, 5); }
    assert Pow2(30) == 0x4000_0000 by { Pow2Add(16, 14); }
    assert Pow2(36) == 0x10_0000_0000 by { Pow2Add(32, 4); }
    assert Pow2(39) == 0x80_0000_0000 by { Pow2Add(30, 9); }
    assert Pow2(40) == 0x100_0000_0000 by { Pow2Add(32, 8); }
    assert Pow2(42) == 0x400_0000_0000 by { Pow2Add(32, 10); }
    assert Pow2(44) == 0x1000_0000_0000 by { Pow2Add(32, 12); }
    assert Pow2(52) == 0x10_0000_0000_0000 by { Pow2Add(48, 4); }
    assert Pow2(53) == 0x20_0000_0000_0000 by { Pow2Add(48, 5); }
    assert Pow2(54) == 0x40_0000_0000_0000 by { Pow2Add(48, 6); }
    assert Pow2(55) == 0x80_0000_0000_0000 by { Pow2Add(54, 1); }
    assert Pow2(59) == 0x800_0000_0000_0000 by { Pow2Add(54, 5); }
    assert Pow2(61) == 0x2000_0000_0000_0000 by { Pow2Add(59, 2); }
  }

  /** Quotient and remainder are determined by the division equation. */
  lemma DivUnique(x: int, d: int, q: int, r: int)
    requires d > 0 && 0 <= r < d && x == d * q + r
    ensures x / d == q && x % d == r
  {
    var e := q - x / d;
    assert d * e == x % d - r by {
      assert d * q == d * (x / d) + d * e;
    }
    assert e >= 1 ==> d * e >= d;
    assert e <= -1 ==> d * e <= -d;
  }

  lemma DivDiv(x: int, a: int, b: int)
    requires a > 0 && b > 0
    ensures a * b > 0
    ensures x / (a * b) == x / a / b
    ensures x % (a * b) == a * (x / a % b) + x % a
  {
    var q, r := x / a, x % a;
    var q2, r2 := q / b, q % b;
    assert x == a * (b * q2 + r2) + r;
    assert a * (b * q2 + r2) == a * b * q2 + a * r2;
    assert a * r2 <= a * (b - 1);
    assert a * (b - 1) == a * b - a;
    assert a * r2 >= 0;
    DivUnique(x, a * b, q2, a * r2 + r);
  }

  /** Multiples of d: exact division, and the gap between two of them. */
  lemma MulDiv(q: int, d: int)
    requires d > 0
    ensures (q * d) / d == q && (q * d) % d == 0
  {
    DivUnique(q * d, d, q, 0);
  }

  lemma {:induction false} MulBound(v: int, w: int, d: int)
    requires d > 0 && v < w
    ensures v * d + d <= w * d
    decreases w - v
  {
    assert (v + 1) * d == v * d + d;
    if v + 1 < w {
      MulBound(v + 1, w, d);
    }
  }

  lemma ProductGap(i: int, j: int, d: int)
    requires d > 0 && d * i < d * j
    ensures d * i + d <= d * j
    ensures d * i + d == d * (i + 1) && d * j - d * i == d * (j - i)
  {
    assert j <= i ==> d * (i - j) >= 0;
    assert i < j;
    assert d * (j - i - 1) >= 0;
  }

  lemma MultipleGap(a: int, b: int, d: int)
    requires d > 0 && a % d == 0 && b % d == 0 && a < b
    ensures a + d <= b && (a + d) % d == 0 && (b - a) % d == 0
  {
    var i, j := a / d, b / d;
    ProductGap(i, j, d);
    DivUnique(a + d, d, i + 1, 0);
    DivUnique(b - a, d, j - i, 0);
  }

  lemma ModAdd(a: int, b: int, d: int)
    requires d > 0 && b % d == 0
    ensures (a + b) % d == a % d && (a - b) % d == a % d
  {
    var q := b / d;
    assert a + b == d * (a / d + q) + a % d by {
      assert d * (a / d + q) == d * (a / d) + d * q;
    }
    assert a - b == d * (a / d - q) + a % d by {
      assert d * (a / d - q) == d * (a / d) - d * q;
    }
    DivUnique(a + b, d, a / d + q, a % d);
    DivUnique(a - b, d, a / d - q, a % d);
  }

  /** x >> s */
  function Shr(x: nat, s: nat): nat {
    if s == 0 then x else Shr(x / 2, s - 1)
  }

  /** x & (2^n - 1) */
  function Low(x: nat, n: nat): nat {
    if n == 0 then 0 else x % 2 + 2 * Low(x / 2, n - 1)
  }

  /** The number whose low n bits are those of i and whose higher bits are q. */
  function Join(q: nat, n: nat, i: nat): nat {
    if n == 0 then q else i % 2 + 2 * Join(q, n - 1, i / 2)
  }

  lemma {:induction false} LowBound(x: nat, n: nat)
    ensures Low(x, n) < Pow2(n)
  {
    if n > 0 {
      LowBound(x / 2, n - 1);
    }
  }

  lemma {:induction false} LowAtMost(x: nat, n: nat)
    ensures Low(x, n) <= x
  {
    if n > 0 {
      LowAtMost(x / 2, n - 1);
    }
  }

  lemma {:induction false} ShrShr(x: nat, s: nat, n: nat)
    ensures Shr(x, s + n) == Shr(Shr(x, s), n)
  {
    if s > 0 {
      ShrShr(x / 2, s - 1, n);
    }
  }

  /** A number is its high bits joined with its low bits, in one way only. */
  lemma {:induction false} JoinSplit(x: nat, n: nat)
    ensures Join(Shr(x, n), n, Low(x, n)) == x
  {
    if n > 0 {
      JoinSplit(x / 2, n - 1);
      assert Low(x, n) / 2 == Low(x / 2, n - 1) && Low(x, n) % 2 == x % 2;
    }
  }

  lemma {:induction false} SplitJoin(q: nat, n: nat, i: nat)
    requires i < Pow2(n)
    ensures Shr(Join(q, n, i), n) == q && Low(Join(q, n, i), n) == i
  {
    if n > 0 {
      SplitJoin(q, n - 1, i / 2);
    }
  }

  /** The same operations as division, remainder and multiplication. */
  lemma {:induction false} ShrIsDiv(x: nat, s: nat)
    ensures Shr(x, s) == x / Pow2(s) && Low(x, s) == x % Pow2(s)
  {
    if s > 0 {
      ShrIsDiv(x / 2, s - 1);
      DivDiv(x, 2, Pow2(s - 1));
    }
  }

  lemma {:induction false} JoinIsSum(q: nat, n: nat, i: nat)
    requires i < Pow2(n)
    ensures Join(q, n, i) == Pow2(n) * q + i
  {
    if n > 0 {
      JoinIsSum(q, n - 1, i / 2);
      assert 2 * (Pow2(n - 1) * q) == Pow2(n) * q;
    }
  }

  /** The low lo bits of a number are unchanged by cutting it off above them. */
  lemma {:induction false} LowOfLow(x: nat, lo: nat, hi: nat)
    requires lo <= hi
    ensures Low(Low(x, hi), lo) == Low(x, lo)
  {
    if lo > 0 {
      LowOfLow(x / 2, lo - 1, hi - 1);
    }
  }

  /** x with its low s bits cleared, plus those bits. */
  lemma FloorPlusLow(x: nat, s: nat)
    ensures Shr(x, s) * Pow2(s) + Low(x, s) == x
  {
    ShrIsDiv(x, s);
  }

  /** Rounding down to a multiple of 2^s stays at least 2^s below every larger power of two. */
  lemma FloorBelow(x: nat, s: nat, t: nat)
    requires s <= t && x < Pow2(t)
    ensures Shr(x, s) * Pow2(s) + Pow2(s) <= Pow2(t)
  {
    FloorPlusLow(x, s);
    Pow2Add(s, t - s);
    ProductBelow(Shr(x, s), Pow2(t - s), Pow2(s));
  }

  lemma ProductBelow(q: nat, m: nat, d: nat)
    requires d > 0 && q * d < d * m
    ensures q * d + d <= d * m
  {
    ProductGap(q, m, d);
  }

  /** Clearing the low s bits keeps every higher bit. */
  lemma ShrOfFloor(x: nat, s: nat, n: nat)
    ensures Shr(Shr(x, s) * Pow2(s), s + n) == Shr(x, s + n)
    ensures Shr(Shr(x, s) * Pow2(s), s) == Shr(x, s)
  {
    ShrShr(x, s, n);
    ShrShr(Shr(x, s) * Pow2(s), s, n);
    ShrIsDiv(Shr(x, s) * Pow2(s), s);
    MulDiv(Shr(x, s), Pow2(s));
  }

  /** Multiples of 2^k, written as numbers whose low k bits are 0. */
  lemma MultipleDown(x: nat, a: nat, b: nat)
    requires a <= b && Low(x, b) == 0
    ensures Low(x, a) == 0
  {
    LowOfLow(x, a, b);
    LowOfZero(a);
  }

  lemma NextMultiple(a: nat, b: nat, k: nat)
    requires Low(a, k) == 0 && Low(b, k) == 0 && a < b
    ensures a + Pow2(k) <= b && Low(a + Pow2(k), k) == 0
  {
    ShrIsDiv(a, k);
    ShrIsDiv(b, k);
    ShrIsDiv(a + Pow2(k), k);
    MultipleGap(a, b, Pow2(k));
  }

  lemma AddMultiple(a: nat, b: nat, k: nat)
    requires Low(b, k) == 0
    ensures Low(a + b, k) == Low(a, k)
  {
    ShrIsDiv(a, k);
    ShrIsDiv(b, k);
    ShrIsDiv(a + b, k);
    ModAdd(a, b, Pow2(k));
  }

  /** Moving by the same distance keeps two numbers congruent, and only then. */
  lemma {:induction false} Congruent(p: nat, v: nat, w: nat, s: nat)
    requires v <= w
    ensures Low(p + (w - v), s) == Low(w, s) <==> Low(p, s) == Low(v, s)
  {
    if s > 0 {
      Halves(p, v, w);
      if p % 2 == v % 2 {
        Congruent(p / 2, v / 2, w / 2, s - 1);
        LowParts(p + (w - v), w, s);
        LowParts(p, v, s);
      }
    }
  }

  lemma Halves(p: nat, v: nat, w: nat)
    requires v <= w
    ensures p % 2 == v % 2 <==> (p + (w - v)) % 2 == w % 2
    ensures p % 2 == v % 2 ==> v / 2 <= w / 2 && (p + (w - v)) / 2 == p / 2 + (w / 2 - v / 2)
  {
  }

  /** Numbers have the same low bits if and only if their last bits and the low bits of their halves agree. */
  lemma LowParts(x: nat, y: nat, s: nat)
    requires s > 0
    ensures Low(x, s) == Low(y, s) <==> x % 2 == y % 2 && Low(x / 2, s - 1) == Low(y / 2, s - 1)
  {
  }

  lemma LowOfPow2(k: nat)
    ensures Low(Pow2(k), k) == 0
  {
    ShrIsDiv(Pow2(k), k);
  }

  /** The least multiple of 2^k that is at least x. */
  function RoundUp(x: nat, k: nat): nat {
    LowBound(x, k);
    if Low(x, k) == 0 then x else x + (Pow2(k) - Low(x, k))
  }

  lemma RoundUpLeast(x: nat, k: nat)
    ensures x <= RoundUp(x, k) < x + Pow2(k) && Low(RoundUp(x, k), k) == 0
    ensures forall m: nat :: x <= m && Low(m, k) == 0 ==> RoundUp(x, k) <= m
  {
    LowBound(x, k);
    if Low(x, k) != 0 {
      FloorPlusLow(x, k);
      var floor := x - Low(x, k);
      ShrIsDiv(floor, k);
      MulDiv(Shr(x, k), Pow2(k));
      LowOfPow2(k);
      AddMultiple(floor, Pow2(k), k);
      forall m: nat | x <= m && Low(m, k) == 0 ensures RoundUp(x, k) <= m {
        NextMultiple(floor, m, k);
      }
    }
  }

  /** A multiple of 2^s and the 2^s - 1 numbers after it are those with the same high bits. */
  lemma SameHighBits(a: nat, x: nat, s: nat)
    requires Low(a, s) == 0
    ensures Shr(x, s) == Shr(a, s) <==> a <= x < a + Pow2(s)
  {
    FloorPlusLow(a, s);
    FloorPlusLow(x, s);
    LowBound(x, s);
    SameQuotient(Shr(a, s), Shr(x, s), Low(x, s), Pow2(s));
  }

  lemma SameQuotient(q: int, q': int, r: nat, d: nat)
    requires r < d
    ensures q' == q <==> q * d <= q' * d + r < q * d + d
  {
    if q < q' {
      MulBound(q, q', d);
    } else if q' < q {
      MulBound(q', q, d);
    }
  }

  lemma ShrZero(x: nat, s: nat)
    ensures Shr(x, s) == 0 <==> x < Pow2(s)
  {
    LowOfZero(s);
    ShrOfZero(s);
    SameHighBits(0, x, s);
  }

  lemma {:induction false} ShrOfZero(s: nat)
    ensures Shr(0, s) == 0
  {
    if s > 0 {
      ShrOfZero(s - 1);
    }
  }

  /** a | b on integers of either sign, two's complement with endless sign bits. */
  function BitOr(a: int, b: int): int
    decreases (if a < 0 then -a else a) + (if b < 0 then -b else b)
  {
    if a == 0 then b
    else if b == 0 then a
    else if a == -1 || b == -1 then -1
    else 2 * BitOr(a / 2, b / 2) + (if a % 2 == 1 || b % 2 == 1 then 1 else 0)
  }

  lemma HalfOfMultiple(b: int, k: nat)
    requires k > 0 && b % Pow2(k) == 0
    ensures b % 2 == 0 && b / 2 % Pow2(k - 1) == 0
  {
    var p, q := Pow2(k - 1), b / Pow2(k);
    assert b == (2 * p) * q;
    assert (2 * p) * q == 2 * (p * q);
    assert b / 2 == p * q;
    DivUnique(p * q, p, q, 0);
  }

  /** Or-ing a value into bits that are still clear is adding it. */
  lemma {:induction false} OrDisjoint(a: nat, b: int, k: nat)
    requires a < Pow2(k) && b % Pow2(k) == 0
    ensures BitOr(a, b) == a + b && BitOr(b, a) == a + b
    decreases k
  {
    if a != 0 && b != 0 {
      HalfOfMultiple(b, k);
      OrDisjoint(a / 2, b / 2, k - 1);
    }
  }

  /** a & b */
  function BitAnd(a: nat, b: nat): nat {
    if a == 0 || b == 0 then 0
    else 2 * BitAnd(a / 2, b / 2) + (if a % 2 == 1 && b % 2 == 1 then 1 else 0)
  }

  /** And-ing with ones at positions lo to hi - 1 keeps those bits and clears the others. */
  lemma {:induction false} AndMask(a: nat, lo: nat, hi: nat)
    requires lo <= hi
    ensures Pow2(lo) <= Pow2(hi)
    ensures BitAnd(a, Pow2(hi) - Pow2(lo)) == Low(a, hi) - Low(a, lo)
    decreases hi
  {
    Pow2Monotone(lo, hi);
    if hi > 0 {
      var m := Pow2(hi) - Pow2(lo);
      AndMask(a / 2, if lo == 0 then 0 else lo - 1, hi - 1);
      if a == 0 {
        LowOfZero(hi);
        LowOfZero(lo);
      } else if m != 0 {
        assert m / 2 == Pow2(hi - 1) - Pow2(if lo == 0 then 0 else lo - 1);
      }
    }
  }

  lemma {:induction false} LowOfZero(n: nat)
    ensures Low(0, n) == 0
  {
    if n > 0 {
      LowOfZero(n - 1);
    }
  }

  /** v << k */
  function Shl(v: int, k: nat): int {
    if k == 0 then v else 2 * Shl(v, k - 1)
  }

  lemma {:induction false} ShlIsProduct(v: int, k: nat)
    ensures Shl(v, k) == v * Pow2(k)
  {
    if k > 0 {
      ShlIsProduct(v, k - 1);
    }
  }

  lemma {:induction false} ShlOfZero(k: nat)
    ensures Shl(0, k) == 0
  {
    if k > 0 {
      ShlOfZero(k - 1);
    }
  }

  lemma {:induction false} OrClear(a: nat, b: nat, k: nat)
    requires a < Pow2(k) && Low(b, k) == 0
    ensures BitOr(a, b) == a + b && BitOr(b, a) == a + b
    decreases k
  {
    if a != 0 && b != 0 {
      OrClear(a / 2, b / 2, k - 1);
    }
  }

  /** Low bits that the other operand has clear pass through an or. */
  lemma {:induction false} OrAbove(a: nat, h: nat, m: nat, k: nat)
    requires a < Pow2(k) && Low(h, k) == 0 && Low(m, k) == 0
    ensures BitOr(a + h, m) == a + BitOr(h, m)
    decreases k
  {
    if k > 0 && m != 0 && a + h != 0 {
      OrAbove(a / 2, h / 2, m / 2, k - 1);
      assert (a + h) / 2 == a / 2 + h / 2;
    }
  }

  /** An or with a negative number is negative: its sign bits have no end. */
  lemma {:induction false} OrNegative(a: nat, b: int)
    requires b < 0
    ensures BitOr(a, b) < 0
    decreases a - b
  {
    if a != 0 && b != -1 {
      OrNegative(a / 2, b / 2);
    }
  }

  /** (v >> lo) & (2^width - 1): a bit field of v. */
  function Field(v: nat, lo: nat, width: nat): (r: nat)
    ensures r < Pow2(width)
  {
    LowBound(Shr(v, lo), width);
    Low(Shr(v, lo), width)
  }

  /** Shifting left clears the low bits, and shifting back restores the number. */
  lemma {:induction false} ShlShr(v: nat, k: nat, a: nat)
    ensures Shl(v, k) >= 0 && Low(Shl(v, k), k) == 0
    ensures Shr(Shl(v, k) + a, k) == v + Shr(a, k)
  {
    if k > 0 {
      ShlShr(v, k - 1, a / 2);
      assert Shl(v, k) / 2 == Shl(v, k - 1);
      assert (Shl(v, k) + a) / 2 == Shl(v, k - 1) + a / 2;
    }
  }

  lemma {:induction false} ShlBound(v: nat, k: nat, w: nat)
    requires v < Pow2(w)
    ensures 0 <= Shl(v, k) && Shl(v, k) + Pow2(k) <= Pow2(k + w)
  {
    if k > 0 {
      ShlBound(v, k - 1, w);
    }
  }

  /** Adding into clear low bits does not disturb the bits above. */
  lemma {:induction false} ShrOfSum(a: nat, b: nat, k: nat)
    requires Low(a, k) == 0 && b < Pow2(k)
    ensures Shr(a + b, k) == Shr(a, k) && Low(a + b, k) == b
  {
    if k > 0 {
      ShrOfSum(a / 2, b / 2, k - 1);
      assert (a + b) / 2 == a / 2 + b / 2;
    }
  }

  lemma {:induction false} LowShr(x: nat, k: nat, w: nat)
    requires Low(x, k + w) == 0
    ensures Low(Shr(x, k), w) == 0
  {
    if k > 0 {
      LowShr(x / 2, k - 1, w);
    }
  }

  /** A field of a word: its value, the position of its lowest bit and its number of bits. */
  datatype BitField = BitField(value: nat, pos: nat, width: nat)

  /** value << pos | value << pos | ..., first to last. */
  function PackOr(fs: seq<BitField>): int {
    if fs == [] then 0
    else
      var last := fs[|fs| - 1];
      BitOr(PackOr(fs[..|fs| - 1]), Shl(last.value, last.pos))
  }

  /** Fields from high to low that do not overlap and keep the low bits of the word clear. */
  predicate Layout(fs: seq<BitField>, low: nat) {
    fs == [] ||
    var last := fs[|fs| - 1];
    && last.pos >= low && last.value < Pow2(last.width)
    && Layout(fs[..|fs| - 1], last.pos + last.width)
  }

  lemma OrStep(word: nat, f: BitField, low: nat)
    requires Low(word, f.pos + f.width) == 0 && f.value < Pow2(f.width) && low <= f.pos
    ensures BitOr(word, Shl(f.value, f.pos)) == word + Shl(f.value, f.pos)
    ensures Shl(f.value, f.pos) >= 0 && Low(word + Shl(f.value, f.pos), low) == 0
  {
    ShlBound(f.value, f.pos, f.width);
    ShlShr(f.value, f.pos, 0);
    OrClear(Shl(f.value, f.pos), word, f.pos + f.width);
    MultipleDown(word, f.pos, f.pos + f.width);
    AddMultiple(word, Shl(f.value, f.pos), f.pos);
    MultipleDown(word + Shl(f.value, f.pos), low, f.pos);
  }

  /** Or-ing in the lowest field is adding it, and leaves the bits below it clear. */
  lemma {:induction false} PackStep(fs: seq<BitField>, low: nat)
    requires Layout(fs, low)
    ensures PackOr(fs) >= 0 && Low(PackOr(fs), low) == 0
    ensures fs != [] ==>
      var last := fs[|fs| - 1];
      PackOr(fs) == PackOr(fs[..|fs| - 1]) + Shl(last.value, last.pos)
  {
    if fs == [] {
      LowOfZero(low);
    } else {
      var last, init := fs[|fs| - 1], fs[..|fs| - 1];
      PackStep(init, last.pos + last.width);
      OrStep(PackOr(init), last, low);
    }
  }

  lemma FieldAbove(word: nat, f: BitField, rest: nat)
    requires Low(word, f.pos + f.width) == 0 && f.value < Pow2(f.width) && rest < Pow2(f.pos)
    ensures Shl(f.value, f.pos) >= 0
    ensures Field(word + Shl(f.value, f.pos) + rest, f.pos, f.width) == f.value
  {
    MultipleDown(word, f.pos, f.pos + f.width);
    ShrOfSum(word, rest, f.pos);
    ShlShr(f.value, f.pos, word + rest);
    LowShr(word, f.pos, f.width);
    ShrOfSum(Shr(word, f.pos), f.value, f.width);
  }

  /** Every packed field reads back, whatever is added in the bits below the fields. */
  lemma {:induction false} PackReadBack(fs: seq<BitField>, low: nat, i: nat, rest: nat)
    requires Layout(fs, low) && i < |fs| && rest < Pow2(low)
    ensures PackOr(fs) >= 0
    ensures Field(PackOr(fs) + rest, fs[i].pos, fs[i].width) == fs[i].value
  {
    var last, init := fs[|fs| - 1], fs[..|fs| - 1];
    PackStep(fs, low);
    PackStep(init, last.pos + last.width);
    Pow2Monotone(low, last.pos);
    if i == |fs| - 1 {
      FieldAbove(PackOr(init), last, rest);
    } else {
      ShlBound(last.value, last.pos, last.width);
      PackReadBack(init, last.pos + last.width, i, Shl(last.value, last.pos) + rest);
    }
  }

  /** Fields below position top make a word below 2^top. */
  lemma {:induction false} PackBound(fs: seq<BitField>, low: nat, top: nat)
    requires Layout(fs, low) && low <= top && (fs != [] ==> fs[0].pos + fs[0].width <= top)
    ensures PackOr(fs) + Pow2(low) <= Pow2(top)
  {
    Pow2Monotone(low, top);
    if fs != [] {
      var last, init := fs[|fs| - 1], fs[..|fs| - 1];
      PackStep(fs, low);
      LayoutBelow(fs, low);
      PackBound(init, last.pos + last.width, top);
      ShlBound(last.value, last.pos, last.width);
      Pow2Monotone(low, last.pos);
    }
  }

  lemma {:induction false} LayoutBelow(fs: seq<BitField>, low: nat)
    requires Layout(fs, low) && fs != []
    ensures fs[|fs| - 1].pos + fs[|fs| - 1].width <= fs[0].pos + fs[0].width
  {
    if |fs| > 1 {
      LayoutBelow(fs[..|fs| - 1], fs[|fs| - 1].pos + fs[|fs| - 1].width);
    }
  }
}
