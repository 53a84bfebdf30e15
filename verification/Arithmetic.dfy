/**
 64-bit division out of the 32-bit divide instruction, lib/arithmetic.c.

 Unsigned integers are naturals below 2^32 or 2^64 and every operation that can
 wrap around says so.  `Divl` is the instruction; that its quotient fits in 32
 bits, so that it does not trap, is its precondition.
 */
module Arithmetic {
  import opened Common

  const B64: nat := 0x1_0000_0000_0000_0000
  const MIN64: int := -0x8000_0000_0000_0000
  const MAX64: int := 0x7fff_ffff_ffff_ffff

  type u64 = x: int | 0 <= x < B64
  type i32 = x: int | -0x8000_0000 <= x < 0x8000_0000
  type i64 = x: int | MIN64 <= x <= MAX64

  /** The value modulo 2^64, as unsigned and as signed arithmetic has it. */
  function Wrap64(x: int): u64 {
    x % B64
  }

  function Signed64(x: int): i64 {
    var u := x % B64;
    if u <= MAX64 then u else u - B64
  }

  function Signed32(x: int): i32 {
    var u := x % TWO32;
    if u < 0x8000_0000 then u else u - TWO32
  }

  /** The number of bits up to and including the highest bit that is set. */
  function BitLength(x: nat): nat {
    if x == 0 then 0 else 1 + BitLength(x / 2)
  }

  lemma {:induction false} BitLengthMeaning(x: nat)
    ensures x < Power2(BitLength(x))
    ensures x > 0 ==> BitLength(x) > 0 && Power2(BitLength(x) - 1) <= x
  {
    if x > 0 {
      BitLengthMeaning(x / 2);
    }
  }

  lemma {:induction false} Pow2Strict(j: nat, k: nat)
    requires j < k
    ensures 2 * Power2(j) <= Power2(k)
  {
    if j + 1 < k {
      Pow2Strict(j, k - 1);
    }
  }

  lemma {:induction false} Pow2Sum(j: nat, k: nat)
    ensures Power2(j + k) == Power2(j) * Power2(k)
  {
    if j > 0 {
      Pow2Sum(j - 1, k);
      assert Power2(j + k) == 2 * Power2(j - 1 + k);
      MulRegroup(2, Power2(j - 1), Power2(k));
    }
  }

  lemma MulRegroup(a: int, b: int, c: int)
    ensures a * b * c == a * (b * c)
  {
  }

  /** Powers of two that the code writes as constants. */
  lemma Pow2Constants()
    ensures Power2(0) == 1 && Power2(1) == 2 && Power2(2) == 4 && Power2(4) == 16 && Power2(8) == 256
    ensures Power2(16) == 0x1_0000 && Power2(31) == 0x8000_0000 && Power2(32) == TWO32
  {
    Pow2Sum(1, 1);
    Pow2Sum(2, 2);
    Pow2Sum(4, 4);
    Pow2Sum(8, 8);
    Pow2Sum(16, 16);
    assert Power2(32) == 2 * Power2(31);
  }

  /** The bit length is the only number between whose powers of two x lies. */
  lemma BitLengthUnique(x: nat, n: nat)
    requires n > 0 && Power2(n - 1) <= x < Power2(n)
    ensures BitLength(x) == n
  {
    BitLengthMeaning(x);
    if BitLength(x) < n {
      if BitLength(x) < n - 1 {
        Pow2Strict(BitLength(x), n - 1);
      }
    } else if BitLength(x) > n {
      if n < BitLength(x) - 1 {
        Pow2Strict(n, BitLength(x) - 1);
      }
    }
  }

  lemma {:induction false} BitLengthAtMost(x: nat, k: nat)
    requires x < Power2(k)
    ensures BitLength(x) <= k
  {
    if x > 0 {
      BitLengthAtMost(x / 2, k - 1);
    }
  }

  /** The number of leading zero bits of a nonzero 32-bit word. */
  function LeadingZeros(x: Word): (n: nat)
    requires x > 0
    ensures n < 32 && Power2(31 - n) <= x < Power2(32 - n)
  {
    Pow2Constants();
    BitLengthAtMost(x, 32);
    BitLengthMeaning(x);
    32 - BitLength(x)
  }

  /** Shifting left lengthens a nonzero number by as many bits. */
  lemma {:induction false} BitLengthShift(x: nat, k: nat)
    requires x > 0
    ensures BitLength(x * Power2(k)) == BitLength(x) + k
  {
    if k > 0 {
      var y := x * Power2(k - 1);
      BitLengthShift(x, k - 1);
      assert x * Power2(k) == 2 * y;
      MulStrict(0, x, Power2(k - 1));
      assert (2 * y) / 2 == y;
    }
  }

  lemma MulStrict(a: int, b: int, c: nat)
    requires a < b && c > 0
    ensures a * c < b * c
  {
  }

  /** A shift of nlz by k bits, m being 2^k, of a word whose top k bits are zero. */
  lemma ShiftUp(x: Word, k: nat, m: nat, len: nat)
    requires 0 < x && m == Power2(k) && x * m < TWO32 && len == BitLength(x)
    ensures x * m % TWO32 == x * m > 0 && BitLength(x * m) == len + k
  {
    BitLengthShift(x, k);
    MulStrict(0, x, m);
  }

  lemma TopBitSet(x: Word)
    requires x >= 0x8000_0000
    ensures BitLength(x) == 32
  {
    Pow2Constants();
    BitLengthUnique(x, 32);
  }

  /** nlz: binary search for the highest bit, shifting it up on the way. */
  method Nlz(x0: Word) returns (n: nat)
    requires x0 > 0
    ensures n == LeadingZeros(x0)
  {
    var x: Word := x0;
    ghost var len := BitLength(x0);
    Pow2Constants();
    n := 0;
    if x <= 0x0000_FFFF {
      ShiftUp(x, 16, 0x1_0000, len);
      n, x, len := n + 16, x * 0x1_0000 % TWO32, len + 16;
    }
    assert x > 0xFFFF && len == BitLength(x) == BitLength(x0) + n;
    if x <= 0x00FF_FFFF {
      ShiftUp(x, 8, 0x100, len);
      n, x, len := n + 8, x * 0x100 % TWO32, len + 8;
    }
    assert x > 0xFF_FFFF && len == BitLength(x) == BitLength(x0) + n;
    if x <= 0x0FFF_FFFF {
      ShiftUp(x, 4, 0x10, len);
      n, x, len := n + 4, x * 0x10 % TWO32, len + 4;
    }
    assert x > 0xFFF_FFFF && len == BitLength(x) == BitLength(x0) + n;
    if x <= 0x3FFF_FFFF {
      ShiftUp(x, 2, 4, len);
      n, x, len := n + 2, x * 4 % TWO32, len + 2;
    }
    assert x > 0x3FFF_FFFF && len == BitLength(x) == BitLength(x0) + n;
    if x <= 0x7FFF_FFFF {
      ShiftUp(x, 1, 2, len);
      TopBitSet(x * 2);
      n := n + 1;
    } else {
      TopBitSet(x);
    }
  }

  // ------------------------------------------------------- division of products

  /** The quotient is the only number with a remainder below the divisor. */
  lemma QuotientUnique(n: int, d: int, q: int)
    requires d > 0 && q * d <= n < (q + 1) * d
    ensures n / d == q
  {
    var r := n - q * d;
    var q', r' := n / d, n % d;
    assert n == q' * d + r';
    if q' < q {
      ProductAtMost(q' + 1, q, d);
    } else if q < q' {
      ProductAtMost(q + 1, q', d);
    }
  }

  lemma QuotientBounds(n: int, d: int)
    requires d > 0
    ensures (n / d) * d <= n < (n / d + 1) * d
  {
    assert n == (n / d) * d + n % d;
    assert (n / d + 1) * d == (n / d) * d + d;
  }

  lemma DivideTwice(n: nat, a: int, b: int)
    requires a > 0 && b > 0
    ensures a * b > 0 && n / a / b == n / (a * b)
  {
    var q := n / a / b;
    QuotientBounds(n, a);
    QuotientBounds(n / a, b);
    MulStrict(0, a, b);
    // q * b <= n / a and n / a + 1 <= (q + 1) * b
    ProductAtMost(q * b, n / a, a);
    ProductAtMost(n / a + 1, (q + 1) * b, a);
    MulRegroup(q, b, a);
    MulRegroup(q + 1, b, a);
    assert b * a == a * b;
    QuotientUnique(n, a * b, q);
  }

  // ------------------------------------------------------------------ unsigned

  /** The x86 instruction; it traps unless the quotient fits in 32 bits. */
  function Divl(n: u64, d: Word): (q: Word)
    requires d > 0 && n / TWO32 < d
  {
    DivlFits(n, d);
    n / d
  }

  /** The divide instruction traps exactly if this does not hold. */
  lemma DivlFits(n: nat, d: nat)
    requires d > 0
    ensures n / d < TWO32 <==> n / TWO32 < d
  {
    QuotientBounds(n, TWO32);
    QuotientBounds(n, d);
    if n / d >= TWO32 {
      ProductAtMost(TWO32, n / d, d);
    } else {
      ProductAtMost(n / d + 1, TWO32, d);
    }
  }

  lemma BelowDivisor(n: nat, d: nat)
    requires n < d
    ensures n / d == 0
  {
    QuotientUnique(n, d, 0);
  }

  /** A 32-bit divisor: long division in two digits of base 2^32, n1 and n0. */
  lemma TwoDigits(n: u64, d: nat, n1: nat, n0: nat, t: nat, r: nat)
    requires 0 < d && n1 == n / TWO32 && n0 == n % TWO32 && t == n1 / d && r == n1 % d
    ensures var m := TWO32 * r + n0; m / TWO32 < d && m / d + TWO32 * t == n / d
  {
    var m := TWO32 * r + n0;
    QuotientUnique(m, TWO32, r);
    QuotientBounds(m, d);
    var q := m / d;
    assert n1 == t * d + r;
    Regroup(t, d);
    assert n == (TWO32 * t) * d + m;
    Distribute(q, TWO32 * t, d);
    Distribute(q + 1, TWO32 * t, d);
    QuotientUnique(n, d, q + TWO32 * t);
  }

  /** And nothing in it wraps around. */
  lemma TwoDigitsFit(n: u64, d: nat, n1: nat, n0: nat)
    requires 0 < d < TWO32 && n1 == n / TWO32 && n0 == n % TWO32
    ensures 0 <= n1 / d < TWO32 && 0 <= n1 % d < d
    ensures Wrap64(TWO32 * (n1 / d)) == TWO32 * (n1 / d)
    ensures Wrap64(TWO32 * (n1 % d) + n0) == TWO32 * (n1 % d) + n0
  {
    DivideAtMost(n1, d);
    WrapSmall(TWO32 * (n1 / d));
    WrapSmall(TWO32 * (n1 % d) + n0);
  }

  lemma WrapSmall(x: int)
    requires 0 <= x < B64
    ensures Wrap64(x) == x
  {
  }

  lemma DivideAtMost(n: nat, d: nat)
    requires d > 0
    ensures 0 <= n / d <= n
  {
    QuotientBounds(n, d);
    if n / d > n {
      ProductAtMost(n + 1, n / d, d);
      ProductAtMost(1, d, n + 1);
    }
  }

  lemma Regroup(t: nat, d: nat)
    ensures TWO32 * (t * d) == (TWO32 * t) * d
  {
  }

  lemma Distribute(a: int, b: int, c: int)
    ensures (a + b) * c == a * c + b * c
  {
  }

  /** The divisor that the estimate uses, shifted so that its top bit is set:
      it is the upper 32 bits that matter, d / 2^(32-s). */
  lemma ShiftedDivisor(d: u64, s: nat)
    requires d >= TWO32 && s == LeadingZeros(d / TWO32)
    ensures d * Power2(s) < B64
    ensures d * Power2(s) / TWO32 == d / Power2(32 - s)
    ensures 0x8000_0000 <= d / Power2(32 - s) < TWO32
  {
    var p, r := Power2(s), Power2(32 - s);
    Pow2Constants();
    Pow2Sum(s, 32 - s);
    Pow2Sum(s, 31 - s);
    var d1 := d / TWO32;
    QuotientBounds(d, TWO32);
    // d < r * TWO32, so d * p < TWO32 * TWO32
    ProductAtMost(d1 + 1, r, TWO32);
    MulStrict(d, r * TWO32, p);
    Swap3(r, TWO32, p);
    // d * p / (p * r) is d / r
    ProductAtMost(0, d, p);
    DivideTwice(d * p, p, r);
    QuotientUnique(d * p, p, d);
    // d >= 2^(31-s) * TWO32 == 2^31 * r
    ProductAtMost(Power2(31 - s), d1, TWO32);
    TopBitOfShifted(d, s);
    DivideBelow(d, r, TWO32);
  }

  lemma Swap3(a: int, b: int, c: int)
    ensures a * b * c == b * (c * a)
  {
  }

  lemma TopBitOfShifted(d: u64, s: nat)
    requires s < 32 && d >= Power2(31 - s) * TWO32
    ensures d / Power2(32 - s) >= 0x8000_0000
  {
    var r := Power2(32 - s);
    assert r == 2 * Power2(31 - s);
    assert d >= 0x8000_0000 * r;
    QuotientBounds(d, r);
    if d / r < 0x8000_0000 {
      ProductAtMost(d / r + 1, 0x8000_0000, r);
    }
  }

  lemma DivideBelow(n: nat, d: nat, b: nat)
    requires d > 0 && n < d * b
    ensures n / d < b
  {
    QuotientBounds(n, d);
    if n / d >= b {
      ProductAtMost(b, n / d, d);
    }
  }

  /** The estimate is one division by the divisor with its low bits cleared. */
  lemma EstimateIsOneDivision(n: u64, v: nat, s: nat, c: nat)
    requires v > 0 && s < 32 && c == v * Power2(32 - s) && c > 0
    ensures n / 2 / v / Power2(31 - s) == n / c
  {
    DivideTwice(n, 2, v);
    DivideTwice(n, 2 * v, Power2(31 - s));
    assert Power2(32 - s) == 2 * Power2(31 - s);
    TwiceV(v, Power2(31 - s));
  }

  lemma TwiceV(v: int, h: int)
    ensures (2 * v) * h == v * (2 * h)
  {
  }

  /** The quotient is small enough for the cleared bits not to matter much. */
  lemma QuotientTimesRest(n: u64, d: u64, s: nat, q: nat)
    requires s < 32 && 0 < d && q == n / d && d >= 0x8000_0000 * Power2(32 - s)
    ensures (q + 1) * (Power2(32 - s) - 1) <= 0x8000_0000 * Power2(32 - s)
  {
    var r, k := Power2(32 - s), 2 * Power2(s);
    Pow2Constants();
    Pow2Sum(s, 32 - s);
    assert r == 2 * Power2(31 - s);
    assert k * r == 2 * TWO32 by { TwiceV(1, Power2(s)); Regroup2(Power2(s), r); }
    QuotientBounds(n, d);
    if q + 1 > k {
      // then n >= k * d >= k * 2^31 * r == 2^64
      ProductAtMost(k, q, d);
      ProductAtMost(0x8000_0000 * r, d, k);
      Rearrange(k, r);
    }
    ProductAtMost(q + 1, k, r - 1);
    MinusOne(k, r);
    if r == 2 {
      assert k == TWO32;
    } else {
      assert r >= 4 by { if s < 31 { assert Power2(31 - s) == 2 * Power2(30 - s); } }
    }
  }

  lemma Regroup2(p: int, r: int)
    ensures (2 * p) * r == 2 * (p * r)
  {
  }

  lemma Rearrange(k: int, r: int)
    ensures (0x8000_0000 * r) * k == 0x8000_0000 * (k * r)
  {
  }

  lemma MinusOne(k: int, r: int)
    ensures k * (r - 1) == k * r - k
  {
  }

  /** A smaller divisor gives a quotient that is not smaller ... */
  lemma SmallerDivisor(n: nat, d: nat, c: nat)
    requires 0 < c <= d
    ensures n / d <= n / c
  {
    QuotientBounds(n, d);
    QuotientBounds(n, c);
    if n / c < n / d {
      ProductAtMost(n / c + 1, n / d, c);
      ScaleUp(n / d, c, d);
    }
  }

  /** ... and at most one more, if what it lacks does not add up to another c. */
  lemma SlightlySmallerDivisor(n: nat, d: nat, c: nat)
    requires 0 < c <= d && (n / d + 1) * (d - c) <= c
    ensures n / c <= n / d + 1
  {
    var q := n / d;
    QuotientBounds(n, d);
    DistributeLeft(q + 1, c, d - c);
    PlusOne(q + 1, c);
    DivideBelow(n, c, q + 2);
  }

  lemma EstimateBounds(n: nat, d: nat, c: nat, r: nat, most: nat)
    requires 0 < c <= d && d - c <= r - 1 && (n / d + 1) * (r - 1) <= most <= c
    ensures n / d <= n / c <= n / d + 1
  {
    SmallerDivisor(n, d, c);
    ScaleUp(n / d + 1, d - c, r - 1);
    SlightlySmallerDivisor(n, d, c);
  }

  lemma ClearedBounds(d: nat, r: nat, v: nat) returns (c: nat)
    requires r > 0 && v == d / r && v >= 0x8000_0000
    ensures c == v * r && 0 < c <= d && d - c <= r - 1 && 0x8000_0000 * r <= c
  {
    c := v * r;
    QuotientBounds(d, r);
    ProductAtMost(0x8000_0000, v, r);
    PlusOne(v, r);
  }

  /** The estimate is the true quotient or one more. */
  lemma Estimate(n: u64, d: u64, s: nat, v: nat)
    requires d >= TWO32 && s == LeadingZeros(d / TWO32) && v == d / Power2(32 - s)
    ensures v > 0 && n / d <= n / 2 / v / Power2(31 - s) <= n / d + 1
  {
    ShiftedDivisor(d, s);
    DivideAtMost(n, d);
    var c := ClearedBounds(d, Power2(32 - s), v);
    QuotientTimesRest(n, d, s, n / d);
    EstimateBounds(n, d, c, Power2(32 - s), 0x8000_0000 * Power2(32 - s));
    EstimateIsOneDivision(n, v, s, c);
  }

  lemma ScaleUp(c: nat, a: int, b: int)
    requires a <= b
    ensures c * a <= c * b
  {
  }

  lemma PlusOne(v: int, r: int)
    ensures (v + 1) * r == v * r + r
  {
  }

  lemma DistributeLeft(a: int, b: int, c: int)
    ensures a * (b + c) == a * b + a * c
  {
  }

  /** One step of correction makes the estimate exact. */
  lemma Correction(n: u64, d: u64, e: nat)
    requires 0 < d <= n && n / d <= e <= n / d + 1
    ensures 0 <= (e - 1) * d <= n
    ensures n - (e - 1) * d < d <==> e == n / d + 1
  {
    var q := n / d;
    QuotientBounds(n, d);
    if q == 0 {
      ProductAtMost(q + 1, 1, d);
    }
    ProductAtMost(0, e - 1, d);
    ProductAtMost(e - 1, q, d);
    if e == q {
      PlusOne(e - 1, d);
    } else {
      PlusOne(q, d);
    }
  }

  lemma HalfFits(n: u64)
    ensures n / 2 / TWO32 < 0x8000_0000
  {
  }

  lemma QuotientPositive(n: nat, d: nat)
    requires 0 < d <= n
    ensures n / d > 0
  {
    QuotientBounds(n, d);
    if n / d == 0 {
      ProductAtMost(n / d + 1, 1, d);
    }
  }

  /** The last expression of udiv64 on an estimate q. */
  function Corrected(n: u64, d: u64, q: u64): u64 {
    if Wrap64(n - Wrap64(Wrap64(q - 1) * d)) < d then Wrap64(q - 1) else q
  }

  lemma CorrectedIsExact(n: u64, d: u64, q: u64)
    requires 0 < d <= n && n / d <= q <= n / d + 1
    ensures Corrected(n, d, q) == n / d
  {
    Correction(n, d, q);
    QuotientPositive(n, d);
    WrapSmall(q - 1);
    WrapSmall((q - 1) * d);
    WrapSmall(n - (q - 1) * d);
  }

  lemma TwoDigitsDone(n: u64, d: u64, d0: Word, n1: Word, n0: Word, low: u64, high: u64)
    requires 0 < d0 == d && n1 == n / TWO32 && n0 == n % TWO32
    requires low == Wrap64(TWO32 * (n1 % d0) + n0) && high == Wrap64(TWO32 * (n1 / d0))
    ensures low / TWO32 < d0 && 0 <= low / d0 + high < B64 && low / d0 + high == n / d
  {
    TwoDigitsFit(n, d0, n1, n0);
    TwoDigits(n, d0, n1, n0, n1 / d0, n1 % d0);
    DivideAtMost(n, d0);
  }

  /** The branch of udiv64 for divisors below 2^32. */
  function DivideBySmall(n: u64, d: u64): (q: u64)
    requires 0 < d < TWO32
    ensures q == n / d
  {
    var n1, n0, d0 := n / TWO32, n % TWO32, d % TWO32;
    var low, high := Wrap64(TWO32 * (n1 % d0) + n0), Wrap64(TWO32 * (n1 / d0));
    TwoDigitsDone(n, d, d0, n1, n0, low, high);
    WrapSmall(Divl(low, d0) + high);
    Wrap64(Divl(low, d0) + high)
  }

  /** The branch of udiv64 for larger divisors and numbers not below them. */
  function DivideByLarge(n: u64, d: u64): (q: u64)
    requires TWO32 <= d <= n
    ensures q == n / d
  {
    var s := LeadingZeros(d / TWO32);
    ShiftedDivisor(d, s);
    HalfFits(n);
    var v := Wrap64(d * Power2(s)) / TWO32;
    Estimate(n, d, s, v);
    DivideAtMost(n, d);
    var q := Divl(n / 2, v) / Power2(31 - s);
    DivideAtMost(Divl(n / 2, v), Power2(31 - s));
    CorrectedIsExact(n, d, q);
    Corrected(n, d, q)
  }

  /** udiv64, with the wrap-around of every 64-bit operation in it.  That it is
      well defined says in particular that the instruction never traps. */
  function Udiv64(n: u64, d: u64): (q: u64)
    requires d != 0
    ensures q == n / d
  {
    if d / TWO32 == 0 then DivideBySmall(n, d)
    else if n < d then (BelowDivisor(n, d); 0)
    else DivideByLarge(n, d)
  }

  /** umod64 returns only the low 32 bits of the remainder that it computes. */
  function Umod64(n: u64, d: u64): Word
    requires d != 0
  {
    Wrap64(n - Wrap64(d * Udiv64(n, d))) % TWO32
  }

  lemma UmodIsNarrowedRemainder(n: u64, d: u64)
    requires d != 0
    ensures Umod64(n, d) == n % d % TWO32
  {
    var p := d * (n / d);
    ProductOfQuotient(n, d);
    WrapSmall(p);
    WrapSmall(n - p);
  }

  lemma ProductOfQuotient(n: nat, d: nat)
    requires d > 0
    ensures 0 <= d * (n / d) <= n && n - d * (n / d) == n % d
  {
    assert n == d * (n / d) + n % d;
    DivideAtMost(n, d);
    ScaleUp(d, 0, n / d);
  }

  lemma UmodCorrect(n: u64, d: u64)
    requires 0 < d <= TWO32
    ensures Umod64(n, d) == n % d
  {
    hide Umod64;
    UmodIsNarrowedRemainder(n, d);
    NarrowSmall(n % d);
  }

  lemma NarrowSmall(r: nat)
    ensures r < TWO32 ==> r % TWO32 == r
  {
  }

  /** The remainder of 2^32 does not fit in the result. */
  lemma UmodWrong(d: u64)
    requires d > TWO32
    ensures Umod64(TWO32, d) == 0 && TWO32 % d == TWO32
  {
    UmodIsNarrowedRemainder(TWO32, d);
    BelowDivisor(TWO32, d);
  }

  /** So it is the remainder for every dividend exactly when d is at most 2^32. */
  lemma UmodCorrectExactlyForSmallDivisors(d: u64)
    requires d != 0
    ensures (forall n: u64 :: Umod64(n, d) == n % d) <==> d <= TWO32
  {
    if d <= TWO32 {
      forall n: u64 {
        UmodCorrect(n, d);
      }
    } else {
      UmodWrong(d);
      var n: u64 := TWO32;
      assert Umod64(n, d) != n % d;
    }
  }

  // -------------------------------------------------------------------- signed

  function Abs(x: int): nat {
    if x >= 0 then x else -x
  }

  /** The quotient rounded towards zero, as C has it. */
  function Truncated(n: int, d: int): int
    requires d != 0
  {
    if (n < 0) == (d < 0) then Abs(n) / Abs(d) else -(Abs(n) / Abs(d))
  }

  function Negated64(x: int): u64 {
    Wrap64(0 - x)
  }

  lemma MagnitudeIsAbs(x: i64)
    ensures (if x >= 0 then Wrap64(x) else Negated64(Wrap64(x))) == Abs(x)
  {
  }

  lemma ModShift(x: int)
    ensures (x + B64) % B64 == x % B64
  {
  }

  lemma SignsPutBack(q: u64)
    ensures Signed64(Negated64(Signed64(q))) == Signed64(0 - q)
  {
    ModShift(0 - q);
    assert Negated64(Signed64(q)) == (0 - q) % B64;
    assert ((0 - q) % B64) % B64 == (0 - q) % B64;
  }

  /** sdiv64: magnitudes taken and signs put back modulo 2^64. */
  function Sdiv64(n: i64, d: i64): i64
    requires d != 0
  {
    var nAbs := if n >= 0 then Wrap64(n) else Negated64(Wrap64(n));
    var dAbs := if d >= 0 then Wrap64(d) else Negated64(Wrap64(d));
    var qAbs := Udiv64(nAbs, dAbs);
    if (n < 0) == (d < 0) then Signed64(qAbs) else Signed64(Negated64(Signed64(qAbs)))
  }

  lemma SdivOfMagnitudes(n: i64, d: i64, q: u64)
    requires d != 0 && q == Abs(n) / Abs(d)
    ensures Sdiv64(n, d) == Signed64(if (n < 0) == (d < 0) then q else 0 - q)
  {
    MagnitudeIsAbs(n);
    MagnitudeIsAbs(d);
    SignsPutBack(q);
  }

  /** A quotient of magnitude q fits unless it is +2^63. */
  lemma QuotientFits(q: u64, positive: bool)
    requires q <= 0x8000_0000_0000_0000
    ensures var t := if positive then q else 0 - q;
      Signed64(t) == t <==> !(positive && q == 0x8000_0000_0000_0000)
  {
  }

  /** It is the truncated quotient modulo 2^64, and exact but for the one
      quotient that does not fit. */
  lemma SdivIsTruncatedQuotient(n: i64, d: i64)
    requires d != 0
    ensures Sdiv64(n, d) == Signed64(Truncated(n, d))
    ensures Sdiv64(n, d) == Truncated(n, d) <==> !(n == MIN64 && d == -1)
  {
    var a, b := Abs(n), Abs(d);
    DivideAtMost(a, b);
    var q := a / b;
    SdivOfMagnitudes(n, d, q);
    QuotientFits(q, (n < 0) == (d < 0));
    if b > 1 {
      HalfAtMost(a, b);
    } else {
      QuotientUnique(a, 1, a);
    }
  }

  lemma HalfAtMost(n: nat, d: nat)
    requires d > 1
    ensures 2 * (n / d) <= n
  {
    DivideAtMost(n, d);
    QuotientBounds(n, d);
    ScaleUp(n / d, 2, d);
  }

  /** smod64 returns only the low 32 bits, as a signed number. */
  function Smod64(n: i64, d: i64): i32
    requires d != 0
  {
    Signed32(n - Signed64(d * Sdiv64(n, d)))
  }

  /** The remainder that goes with the truncated quotient. */
  function TruncatedRemainder(n: int, d: int): int
    requires d != 0
  {
    n - d * Truncated(n, d)
  }

  lemma RemainderBounds(n: int, d: int)
    requires d != 0
    ensures Abs(TruncatedRemainder(n, d)) < Abs(d)
  {
    var a, b := Abs(n), Abs(d);
    ProductOfQuotient(a, b);
    assert 0 <= a % b < b;
    SignedProduct(d, a / b);
  }

  lemma SignedProduct(d: int, q: int)
    ensures d * (-q) == -(d * q) && (-d) * q == -(d * q) && (-d) * (-q) == d * q
  {
  }

  /** All the wrapping on the way does not touch the low 32 bits. */
  lemma SmodIsNarrowedRemainder(n: i64, d: i64)
    requires d != 0
    ensures Smod64(n, d) == Signed32(TruncatedRemainder(n, d))
  {
    SdivIsTruncatedQuotient(n, d);
    if n == MIN64 && d == -1 {
      LeastByMinusOne();
    } else {
      hide Sdiv64, Truncated;
      LowBits(n, d * Truncated(n, d));
    }
  }

  lemma LeastByMinusOne()
    ensures Smod64(MIN64, -1) == 0 == Signed32(TruncatedRemainder(MIN64, -1))
  {
    hide Sdiv64;
    SdivIsTruncatedQuotient(MIN64, -1);
    assert Truncated(MIN64, -1) == 0x8000_0000_0000_0000;
  }

  lemma LowBits(n: int, p: int)
    ensures Signed32(n - Signed64(p)) == Signed32(n - p)
  {
    var k := p / B64;
    assert Signed64(p) == p - k * B64 || Signed64(p) == p - k * B64 - B64;
    SameLowBits(n - p, k);
    SameLowBits(n - p, k + 1);
  }

  lemma SameLowBits(x: int, k: int)
    ensures Signed32(x + k * B64) == Signed32(x)
  {
    var y, q := x + k * B64, x / TWO32 + k * TWO32;
    QuotientUnique(y, TWO32, q);
    assert y % TWO32 == y - q * TWO32 == x % TWO32;
  }

  lemma SmodCorrect(n: i64, d: i64)
    requires d != 0 && Abs(d) <= 0x8000_0000
    ensures Smod64(n, d) == TruncatedRemainder(n, d)
  {
    SmodIsNarrowedRemainder(n, d);
    RemainderBounds(n, d);
    Narrow(TruncatedRemainder(n, d));
  }

  lemma Narrow(x: int)
    requires -0x8000_0000 <= x < 0x8000_0000
    ensures Signed32(x) == x
  {
  }

  /** A remainder of 2^31 does not fit in the result. */
  lemma SmodWrong(d: i64)
    requires Abs(d) > 0x8000_0000
    ensures Smod64(0x8000_0000, d) == -0x8000_0000 && TruncatedRemainder(0x8000_0000, d) == 0x8000_0000
  {
    var n: i64 := 0x8000_0000;
    SmodIsNarrowedRemainder(n, d);
    RemainderOfSmaller(n, d);
    NarrowTop();
  }

  lemma NarrowTop()
    ensures Signed32(0x8000_0000) == -0x8000_0000
  {
  }

  lemma RemainderOfSmaller(n: nat, d: int)
    requires n < Abs(d)
    ensures TruncatedRemainder(n, d) == n
  {
    BelowDivisor(n, Abs(d));
  }

  /** So it is the remainder for every dividend exactly when d is at most 2^31
      in magnitude. */
  lemma SmodCorrectExactlyForSmallDivisors(d: i64)
    requires d != 0
    ensures (forall n: i64 :: Smod64(n, d) == TruncatedRemainder(n, d)) <==> Abs(d) <= 0x8000_0000
  {
    if Abs(d) <= 0x8000_0000 {
      forall n: i64 {
        SmodCorrect(n, d);
      }
    } else {
      SmodWrong(d);
      var n: i64 := 0x8000_0000;
      assert Smod64(n, d) != TruncatedRemainder(n, d);
    }
  }
}
