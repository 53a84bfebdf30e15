/**
 The bitmap of lib/kernel/bitmap.c: from the outside a sequence of bits
 (`View`), from the inside an array of 32-bit words.
 */
module Bitmap {
  import opened Bits
  import opened Common

  const ELEM_BITS := WORD_BITS

  function ElemIdx(i: nat): nat {
    i / ELEM_BITS
  }

  /** A word where only the bit of bit i is on. */
  function BitMask(i: nat): Word {
    Shifted(i % ELEM_BITS)
  }

  function ElemCnt(bitCnt: nat): (n: nat)
    ensures bitCnt <= ELEM_BITS * n < bitCnt + ELEM_BITS
  {
    (bitCnt + ELEM_BITS - 1) / ELEM_BITS
  }

  /** The bit numbered i of a sequence of words. */
  predicate BitOf(words: seq<Word>, i: nat)
    requires i < ELEM_BITS * |words|
  {
    Bit(words[ElemIdx(i)], i % ELEM_BITS)
  }

  /** Every bit of a sequence of words. */
  ghost function BitsOf(words: seq<Word>, bitCnt: nat): (r: seq<bool>)
    requires bitCnt <= ELEM_BITS * |words|
    ensures |r| == bitCnt
  {
    seq(bitCnt, i requires 0 <= i < bitCnt => BitOf(words, i))
  }

  // -------------------------------------------------------------- bit by bit

  /** Word w' is word w with the bit at place k set to value. */
  ghost predicate OneBitSet(w: Word, w': Word, k: nat, value: bool) {
    && Bit(w', k) == value
    && forall j: nat :: j < ELEM_BITS && j != k ==> Bit(w', j) == Bit(w, j)
  }

  /** The OR instruction of bitmap_mark. */
  lemma MarkSetsOneBit(w: Word, k: nat)
    requires k < ELEM_BITS
    ensures OneBitSet(w, Or(w, Shifted(k)), k, true)
  {
    forall j: nat | j < ELEM_BITS ensures Bit(Or(w, Shifted(k)), j) == (Bit(w, j) || j == k) {
      OrBits(w, Shifted(k), j);
      MaskBits(k, j);
    }
  }

  /** The AND instruction of bitmap_reset. */
  lemma ResetClearsOneBit(w: Word, k: nat)
    requires k < ELEM_BITS
    ensures OneBitSet(w, And(w, Not(Shifted(k))), k, false)
  {
    forall j: nat | j < ELEM_BITS ensures Bit(And(w, Not(Shifted(k))), j) == (Bit(w, j) && j != k) {
      AndBits(w, Not(Shifted(k)), j);
      NotBits(Shifted(k), j);
      MaskBits(k, j);
    }
  }

  /** The XOR instruction of bitmap_flip. */
  lemma FlipFlipsOneBit(w: Word, k: nat)
    requires k < ELEM_BITS
    ensures OneBitSet(w, Xor(w, Shifted(k)), k, !Bit(w, k))
  {
    forall j: nat | j < ELEM_BITS ensures Bit(Xor(w, Shifted(k)), j) == (Bit(w, j) != (j == k)) {
      XorBits(w, Shifted(k), j);
      MaskBits(k, j);
    }
  }

  /** One bit of one word is one bit of the bitmap. */
  lemma OneBitOfView(words: seq<Word>, bitCnt: nat, i: nat, w': Word, value: bool)
    requires i < bitCnt <= ELEM_BITS * |words|
    requires OneBitSet(words[ElemIdx(i)], w', i % ELEM_BITS, value)
    ensures BitsOf(words[ElemIdx(i) := w'], bitCnt) == BitsOf(words, bitCnt)[i := value]
  {
    var words' := words[ElemIdx(i) := w'];
    forall j | 0 <= j < bitCnt ensures BitOf(words', j) == if j == i then value else BitOf(words, j) {
    }
  }

  // ------------------------------------------------------------ runs of bits

  /** The cnt bits from start on all set to value. */
  function Filled(s: seq<bool>, start: nat, cnt: nat, value: bool): (r: seq<bool>)
    requires start + cnt <= |s|
    ensures |r| == |s|
  {
    seq(|s|, i requires 0 <= i < |s| => if start <= i < start + cnt then value else s[i])
  }

  /** All cnt bits from start on are value. */
  predicate Uniform(s: seq<bool>, start: nat, cnt: nat, value: bool)
    requires start + cnt <= |s|
  {
    forall i :: start <= i < start + cnt ==> s[i] == value
  }

  /** bitmap_scan: the least place at or after start where such a run begins,
      or None for BITMAP_ERROR. */
  predicate IsFirstRun(s: seq<bool>, start: nat, cnt: nat, value: bool, r: Option<nat>) {
    && (r.Some? ==> start <= r.value && r.value + cnt <= |s| && Uniform(s, r.value, cnt, value))
    && (forall i :: start <= i && i + cnt <= |s| && (r.Some? ==> i < r.value) ==> !Uniform(s, i, cnt, value))
  }

  /** The first run of no bits is at the start: with a count of 0 the result is the
      documented 0 exactly for a scan from bit 0. */
  lemma EmptyRunIsAtStart(s: seq<bool>, start: nat, value: bool, r: Option<nat>)
    requires start <= |s| && IsFirstRun(s, start, 0, value, r)
    ensures r == Some(start) && (r == Some(0) <==> start == 0)
  {
    assert Uniform(s, start, 0, value) && Uniform(s, start, 0, !value);
  }

  /** An input that shows it: scanning two clear bits from bit 1 for no bits gives 1. */
  lemma EmptyRunAtOne(r: Option<nat>)
    requires IsFirstRun([false, false], 1, 0, true, r)
    ensures r == Some(1)
  {
    EmptyRunIsAtStart([false, false], 1, true, r);
  }

  /** last_mask: the places in use in the last word. */
  function LastMask(bitCnt: nat): Word {
    if bitCnt % ELEM_BITS != 0 then Shifted(bitCnt % ELEM_BITS) - 1 else TWO32 - 1
  }

  lemma LastMaskBits(bitCnt: nat, k: nat)
    requires k < ELEM_BITS
    ensures Bit(LastMask(bitCnt), k) <==> bitCnt % ELEM_BITS == 0 || k < bitCnt % ELEM_BITS
  {
    BitsBelow(bitCnt % ELEM_BITS, k);
    BitsBelow(ELEM_BITS, k);
    MaskOfWord();
  }

  class Bitmap {
    const bitCnt: nat
    const bits: array<Word>

    ghost predicate Valid()
    {
      bits.Length == ElemCnt(bitCnt)
    }

    /** The bitmap from the outside. */
    ghost function View(): (r: seq<bool>)
      requires Valid()
      reads bits
      ensures |r| == bitCnt
    {
      BitsOf(bits[..], bitCnt)
    }

    /** bitmap_create, when its allocations succeed. */
    constructor (n: nat)
      ensures Valid() && fresh(bits) && bitCnt == n && View() == Filled(seq(n, _ => false), 0, n, false)
    {
      bitCnt := n;
      bits := new Word[ElemCnt(n)](_ => 0);
      new;
      forall i | 0 <= i < n ensures !BitOf(bits[..], i) {
        ZeroBits(i % ELEM_BITS);
      }
    }

    method Mark(i: nat)
      requires Valid() && i < bitCnt
      modifies bits
      ensures View() == old(View())[i := true]
    {
      var idx := ElemIdx(i);
      MarkSetsOneBit(bits[idx], i % ELEM_BITS);
      OneBitOfView(bits[..], bitCnt, i, Or(bits[idx], BitMask(i)), true);
      bits[idx] := Or(bits[idx], BitMask(i));
      assert bits[..] == old(bits[..])[idx := bits[idx]];
    }

    method Reset(i: nat)
      requires Valid() && i < bitCnt
      modifies bits
      ensures View() == old(View())[i := false]
    {
      var idx := ElemIdx(i);
      ResetClearsOneBit(bits[idx], i % ELEM_BITS);
      OneBitOfView(bits[..], bitCnt, i, And(bits[idx], Not(BitMask(i))), false);
      bits[idx] := And(bits[idx], Not(BitMask(i)));
      assert bits[..] == old(bits[..])[idx := bits[idx]];
    }

    method Flip(i: nat)
      requires Valid() && i < bitCnt
      modifies bits
      ensures View() == old(View())[i := !old(View())[i]]
    {
      var idx := ElemIdx(i);
      FlipFlipsOneBit(bits[idx], i % ELEM_BITS);
      OneBitOfView(bits[..], bitCnt, i, Xor(bits[idx], BitMask(i)), !Bit(bits[idx], i % ELEM_BITS));
      bits[idx] := Xor(bits[idx], BitMask(i));
      assert bits[..] == old(bits[..])[idx := bits[idx]];
    }

    method Set(i: nat, value: bool)
      requires Valid() && i < bitCnt
      modifies bits
      ensures View() == old(View())[i := value]
    {
      if value {
        Mark(i);
      } else {
        Reset(i);
      }
    }

    method Test(i: nat) returns (value: bool)
      requires Valid() && i < bitCnt
      ensures value == View()[i]
    {
      AndWithMask(bits[ElemIdx(i)], i % ELEM_BITS);
      value := And(bits[ElemIdx(i)], BitMask(i)) != 0;
    }

    method SetMultiple(start: nat, cnt: nat, value: bool)
      requires Valid() && start + cnt <= bitCnt
      modifies bits
      ensures View() == Filled(old(View()), start, cnt, value)
    {
      var i := 0;
      while i < cnt
        invariant 0 <= i <= cnt
        invariant View() == Filled(old(View()), start, i, value)
      {
        Set(start + i, value);
        i := i + 1;
      }
    }

    /** Is any of the cnt bits from start on equal to value? */
    method Contains(start: nat, cnt: nat, value: bool) returns (found: bool)
      requires Valid() && start + cnt <= bitCnt
      ensures found <==> !Uniform(View(), start, cnt, !value)
    {
      var i := 0;
      while i < cnt
        invariant 0 <= i <= cnt && Uniform(View(), start, i, !value)
      {
        var bit := Test(start + i);
        if bit == value {
          return true;
        }
        i := i + 1;
      }
      found := false;
    }

    method Scan(start: nat, cnt: nat, value: bool) returns (r: Option<nat>)
      requires Valid() && start <= bitCnt
      ensures IsFirstRun(View(), start, cnt, value, r)
    {
      if cnt <= bitCnt {
        var last := bitCnt - cnt;
        var i := start;
        while i <= last
          invariant start <= i
          invariant forall k :: start <= k < i && k + cnt <= bitCnt ==> !Uniform(View(), k, cnt, value)
        {
          var found := Contains(i, cnt, !value);
          if !found {
            return Some(i);
          }
          i := i + 1;
        }
      }
      r := None;
    }

    /** bitmap_scan_and_flip.  For a count of 0 its comment announces the result 0, but
        it is the start (see EmptyRunIsAtStart). */
    method ScanAndFlip(start: nat, cnt: nat, value: bool) returns (r: Option<nat>)
      requires Valid() && start <= bitCnt
      modifies bits
      ensures IsFirstRun(old(View()), start, cnt, value, r)
      ensures View() == if r.Some? then Filled(old(View()), r.value, cnt, !value) else old(View())
      ensures cnt == 0 ==> r == Some(start) && View() == old(View())
    {
      ghost var s := View();
      r := Scan(start, cnt, value);
      if cnt == 0 {
        EmptyRunIsAtStart(s, start, value, r);
        assert Filled(s, start, 0, !value) == s;
      }
      if r.Some? {
        SetMultiple(r.value, cnt, !value);
      }
    }

    /** bitmap_write: the words as they are. */
    method Write() returns (image: seq<Word>)
      requires Valid()
      ensures |image| == ElemCnt(bitCnt) && image == bits[..] && BitsOf(image, bitCnt) == View()
    {
      image := bits[..];
    }

    /** bitmap_read of a full image: the words, less the bits not in use. */
    method Read(image: seq<Word>)
      requires Valid() && |image| == ElemCnt(bitCnt)
      modifies bits
      ensures View() == BitsOf(image, bitCnt)
      ensures forall i :: bitCnt <= i < ELEM_BITS * bits.Length ==> !BitOf(bits[..], i)
    {
      if bitCnt > 0 {
        forall i | 0 <= i < bits.Length {
          bits[i] := image[i];
        }
        var last := ElemCnt(bitCnt) - 1;
        bits[last] := And(bits[last], LastMask(bitCnt));
        forall i | 0 <= i < ELEM_BITS * bits.Length
          ensures BitOf(bits[..], i) == (i < bitCnt && BitOf(image, i))
        {
          LastWord(image, bits[..], bitCnt, i);
        }
      }
    }
  }

  lemma InLastWord(bitCnt: nat, i: nat)
    requires bitCnt > 0 && ElemIdx(i) < ElemCnt(bitCnt)
    ensures i < bitCnt <==>
      ElemIdx(i) < ElemCnt(bitCnt) - 1 || bitCnt % ELEM_BITS == 0 || i % ELEM_BITS < bitCnt % ELEM_BITS
  {
  }

  /** Masking the last word clears the bits not in use and no other. */
  lemma LastWord(image: seq<Word>, words: seq<Word>, bitCnt: nat, i: nat)
    requires bitCnt > 0 && |image| == ElemCnt(bitCnt) && i < ELEM_BITS * |image|
    requires words == image[|image| - 1 := And(image[|image| - 1], LastMask(bitCnt))]
    ensures BitOf(words, i) == (i < bitCnt && BitOf(image, i))
  {
    InLastWord(bitCnt, i);
    AndBits(image[|image| - 1], LastMask(bitCnt), i % ELEM_BITS);
    LastMaskBits(bitCnt, i % ELEM_BITS);
  }

  // ------------------------------------------------------- bits as a set

  predicate InRun(q: nat, p: nat, cnt: nat) {
    p <= q < p + cnt
  }

  /** The numbers p, ..., p + cnt - 1. */
  function Run(p: nat, cnt: nat): set<nat> {
    set q: nat | p <= q < p + cnt && InRun(q, p, cnt)
  }

  predicate BitOn(base: nat, bits: seq<bool>, q: nat) {
    base <= q < base + |bits| && bits[q - base]
  }

  /** The places of the bits that are on, counted from base. */
  function OnesFrom(base: nat, bits: seq<bool>): set<nat> {
    set q: nat | base <= q < base + |bits| && BitOn(base, bits, q)
  }

  lemma FillIsUnion(base: nat, bits: seq<bool>, idx: nat, cnt: nat)
    requires idx + cnt <= |bits|
    ensures OnesFrom(base, Filled(bits, idx, cnt, true)) == OnesFrom(base, bits) + Run(base + idx, cnt)
    ensures OnesFrom(base, Filled(bits, idx, cnt, false)) == OnesFrom(base, bits) - Run(base + idx, cnt)
  {
  }

  lemma UniformMeans(base: nat, bits: seq<bool>, idx: nat, cnt: nat)
    requires idx + cnt <= |bits|
    ensures Uniform(bits, idx, cnt, false) <==> OnesFrom(base, bits) !! Run(base + idx, cnt)
    ensures Uniform(bits, idx, cnt, true) <==> Run(base + idx, cnt) <= OnesFrom(base, bits)
  {
    if OnesFrom(base, bits) !! Run(base + idx, cnt) {
      forall i | idx <= i < idx + cnt ensures bits[i] == false {
        assert base + i in Run(base + idx, cnt);
      }
    }
    if Run(base + idx, cnt) <= OnesFrom(base, bits) {
      forall i | idx <= i < idx + cnt ensures bits[i] {
        assert base + i in Run(base + idx, cnt);
      }
    }
  }

  lemma {:induction false} RunSize(p: nat, n: nat)
    ensures |Run(p, n)| == n
  {
    if n == 0 {
      assert Run(p, 0) == {};
    } else {
      RunSize(p, n - 1);
      assert Run(p, n) == Run(p, n - 1) + {p + n - 1};
    }
  }
}
