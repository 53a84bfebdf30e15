/**
 Bitwise arithmetic on 32-bit words, from first principles: a word is a
 natural number below 2^32 and the C operators work bit by bit.
 */
module Bits {
  import opened Common

  const WORD_BITS := 32

  /** The bit of weight 2^k. */
  predicate Bit(w: nat, k: nat) {
    if k == 0 then w % 2 == 1 else Bit(w / 2, k - 1)
  }

  function Digit(b: bool): nat {
    if b then 1 else 0
  }

  /** The n-bit number whose bits are f of the bits of v and w. */
  function Bitwise(f: (bool, bool) -> bool, v: nat, w: nat, n: nat): nat {
    if n == 0 then 0
    else Digit(f(v % 2 == 1, w % 2 == 1)) + 2 * Bitwise(f, v / 2, w / 2, n - 1)
  }

  lemma {:induction false} BitwiseFits(f: (bool, bool) -> bool, v: nat, w: nat, n: nat)
    ensures Bitwise(f, v, w, n) < Power2(n)
  {
    if n > 0 {
      BitwiseFits(f, v / 2, w / 2, n - 1);
    }
  }

  lemma {:induction false} BitwiseBits(f: (bool, bool) -> bool, v: nat, w: nat, n: nat, k: nat)
    requires k < n
    ensures Bit(Bitwise(f, v, w, n), k) == f(Bit(v, k), Bit(w, k))
  {
    var rest := Bitwise(f, v / 2, w / 2, n - 1);
    assert Bitwise(f, v, w, n) / 2 == rest;
    if k > 0 {
      BitwiseBits(f, v / 2, w / 2, n - 1, k - 1);
    }
  }

  lemma MaskOfWord()
    ensures Power2(WORD_BITS) == TWO32
  {
    assert Power2(8) == 256;
    assert Power2(16) == 0x1_0000;
    assert Power2(24) == 0x100_0000;
    assert Power2(28) == 0x1000_0000;
  }

  lemma {:induction false} MaskGrows(j: nat, k: nat)
    requires j < k
    ensures Power2(j) < Power2(k)
  {
    if j < k - 1 {
      MaskGrows(j, k - 1);
    }
  }

  function And(v: Word, w: Word): Word {
    BitwiseFits((a, b) => a && b, v, w, WORD_BITS);
    MaskOfWord();
    Bitwise((a, b) => a && b, v, w, WORD_BITS)
  }

  function Or(v: Word, w: Word): Word {
    BitwiseFits((a, b) => a || b, v, w, WORD_BITS);
    MaskOfWord();
    Bitwise((a, b) => a || b, v, w, WORD_BITS)
  }

  function Xor(v: Word, w: Word): Word {
    BitwiseFits((a, b) => a != b, v, w, WORD_BITS);
    MaskOfWord();
    Bitwise((a, b) => a != b, v, w, WORD_BITS)
  }

  function Not(w: Word): Word {
    TWO32 - 1 - w
  }

  /** 1 << k for a place k of a word. */
  function Shifted(k: nat): (m: Word)
    requires k < WORD_BITS
    ensures m > 0
  {
    MaskGrows(k, WORD_BITS);
    MaskOfWord();
    Power2(k)
  }

  lemma AndBits(v: Word, w: Word, k: nat)
    requires k < WORD_BITS
    ensures Bit(And(v, w), k) == (Bit(v, k) && Bit(w, k))
  {
    BitwiseBits((a, b) => a && b, v, w, WORD_BITS, k);
  }

  lemma OrBits(v: Word, w: Word, k: nat)
    requires k < WORD_BITS
    ensures Bit(Or(v, w), k) == (Bit(v, k) || Bit(w, k))
  {
    BitwiseBits((a, b) => a || b, v, w, WORD_BITS, k);
  }

  lemma XorBits(v: Word, w: Word, k: nat)
    requires k < WORD_BITS
    ensures Bit(Xor(v, w), k) == (Bit(v, k) != Bit(w, k))
  {
    BitwiseBits((a, b) => a != b, v, w, WORD_BITS, k);
  }

  /** The number of n bits all of which are one. */
  lemma {:induction false} ComplementBits(w: nat, n: nat, k: nat)
    requires w < Power2(n) && k < n
    ensures Bit(Power2(n) - 1 - w, k) == !Bit(w, k)
  {
    assert (Power2(n) - 1 - w) / 2 == Power2(n - 1) - 1 - w / 2;
    if k > 0 {
      ComplementBits(w / 2, n - 1, k - 1);
    }
  }

  lemma NotBits(w: Word, k: nat)
    requires k < WORD_BITS
    ensures Bit(Not(w), k) == !Bit(w, k)
  {
    MaskOfWord();
    ComplementBits(w, WORD_BITS, k);
  }

  lemma {:induction false} MaskBits(k: nat, j: nat)
    ensures Bit(Power2(k), j) == (j == k)
  {
    if k == 0 {
      if j > 0 {
        ZeroBits(j - 1);
      }
    } else if j > 0 {
      assert Power2(k) / 2 == Power2(k - 1);
      MaskBits(k - 1, j - 1);
    }
  }

  lemma {:induction false} ZeroBits(j: nat)
    ensures !Bit(0, j)
  {
    if j > 0 {
      ZeroBits(j - 1);
    }
  }

  /** A mask less one holds exactly the places below. */
  lemma {:induction false} BitsBelow(k: nat, j: nat)
    ensures Bit(Power2(k) - 1, j) == (j < k)
  {
    if k == 0 {
      ZeroBits(j);
    } else {
      assert (Power2(k) - 1) / 2 == Power2(k - 1) - 1;
      if j > 0 {
        BitsBelow(k - 1, j - 1);
      }
    }
  }

  /** Numbers with the same bits are equal. */
  lemma {:induction false} SameBits(v: nat, w: nat, n: nat)
    requires v < Power2(n) && w < Power2(n)
    requires forall k: nat :: k < n ==> Bit(v, k) == Bit(w, k)
    ensures v == w
  {
    if n > 0 {
      assert Bit(v, 0) == Bit(w, 0);
      forall k: nat | k < n - 1 ensures Bit(v / 2, k) == Bit(w / 2, k) {
        assert Bit(v, k + 1) == Bit(w, k + 1);
      }
      SameBits(v / 2, w / 2, n - 1);
    }
  }

  /** Testing against a mask tests one bit. */
  lemma AndWithMask(w: Word, k: nat)
    requires k < WORD_BITS
    ensures And(w, Shifted(k)) != 0 <==> Bit(w, k)
  {
    var x := And(w, Shifted(k));
    AndBits(w, Shifted(k), k);
    MaskBits(k, k);
    ZeroBits(k);
    if !Bit(w, k) {
      forall j: nat | j < WORD_BITS ensures Bit(x, j) == Bit(0, j) {
        AndBits(w, Shifted(k), j);
        MaskBits(k, j);
        ZeroBits(j);
      }
      MaskOfWord();
      SameBits(x, 0, WORD_BITS);
    }
  }

  lemma HalfOfBelow(m: nat)
    requires m > 0
    ensures (2 * m - 1) / 2 == m - 1 && (2 * m - 1) % 2 == 1
  {
  }

  lemma {:induction false} AndBelow(w: nat, k: nat, n: nat)
    requires k <= n
    ensures Bitwise((a, b) => a && b, w, Power2(k) - 1, n) == w % Power2(k)
  {
    if k == 0 {
      AndZero(w, n);
    } else {
      var m := Power2(k - 1);
      HalfOfBelow(m);
      AndBelow(w / 2, k - 1, n - 1);
      DoubleRemainder(w, m);
      assert Power2(k) == 2 * m;
    }
  }

  lemma {:induction false} AndZero(w: nat, n: nat)
    ensures Bitwise((a, b) => a && b, w, 0, n) == 0
  {
    if n > 0 {
      AndZero(w / 2, n - 1);
    }
  }

  lemma DoubleRemainder(w: nat, m: nat)
    requires m > 0
    ensures w % (2 * m) == w % 2 + 2 * (w / 2 % m)
  {
    var q := w / 2 / m;
    assert w / 2 == m * q + w / 2 % m;
    assert w == (2 * m) * q + (w % 2 + 2 * (w / 2 % m)) by {
      assert (2 * m) * q == 2 * (m * q);
    }
    RemainderIs(w, 2 * m, q, w % 2 + 2 * (w / 2 % m));
  }

  lemma ProductGrows(d: nat, p: nat, q: nat)
    ensures p < q ==> d * p + d <= d * q
  {
    if p < q {
      var e := q - p - 1;
      Distributes(d, p + 1, e);
      Distributes(d, p, 1);
    }
  }

  lemma Distributes(d: nat, p: nat, e: nat)
    ensures d * (p + e) == d * p + d * e
  {
  }

  lemma RemainderIs(n: nat, d: nat, q: nat, r: nat)
    requires r < d && n == d * q + r
    ensures n % d == r && n / d == q
  {
    var q', r' := n / d, n % d;
    assert n == d * q' + r';
    ProductGrows(d, q, q');
    ProductGrows(d, q', q);
  }

  /** Masking with 2^k - 1 is the remainder modulo 2^k. */
  lemma AndIsRemainder(w: Word, k: nat)
    requires k < WORD_BITS
    ensures And(w, Shifted(k) - 1) == w % Power2(k)
  {
    AndBelow(w, k, WORD_BITS);
  }
}
