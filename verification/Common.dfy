/** Small definitions shared by the other modules. */
module Common {

  type byte = b: nat | b < 256

  const NUL: byte := 0

  /** A string as C has it, without the null byte at its end. */
  ghost predicate CString(s: seq<byte>) {
    forall i :: 0 <= i < |s| ==> s[i] != NUL
  }

  datatype Option<+T> = None | Some(value: T)

  /** No element occurs at two positions. */
  ghost predicate NoDup<T>(s: seq<T>) {
    forall i, j :: 0 <= i < j < |s| ==> s[i] != s[j]
  }

  // threads/vaddr.h
  const PGSIZE := 4096
  const PHYS_BASE := 0xc000_0000

  /** The number of values of a 32-bit word. */
  const TWO32: nat := 0x1_0000_0000

  type Word = w: nat | w < TWO32

  function Power2(k: nat): (p: nat)
    ensures p > 0
  {
    if k == 0 then 1 else 2 * Power2(k - 1)
  }

  function Least(a: int, b: int): int {
    if a < b then a else b
  }

  lemma ProductAtMost(p: int, q: int, k: nat)
    requires p <= q
    ensures p * k <= q * k
  {
  }

  lemma SubsetSize<T>(x: set<T>, y: set<T>)
    requires x <= y
    ensures |x| <= |y| && (|x| == |y| ==> x == y)
  {
    var rest := y - x;
    assert y == x + rest;
    assert |y| == |x| + |rest|;
    if |rest| == 0 {
      assert rest == {};
    }
  }

  ghost predicate AllZeros(s: seq<byte>) {
    forall i :: 0 <= i < |s| ==> s[i] == NUL
  }

  function Dup(c: byte, n: nat): (r: seq<byte>)
    ensures |r| == n && forall i :: 0 <= i < n ==> r[i] == c
  {
    seq(n, _ => c)
  }

  function Sum(s: seq<byte>): nat {
    if s == [] then 0 else Sum(s[..|s| - 1]) + s[|s| - 1]
  }

  /** A list without the first occurrence of an element: list_remove. */
  function Without<T(==)>(s: seq<T>, x: T): seq<T> {
    if s == [] then [] else if s[0] == x then s[1..] else [s[0]] + Without(s[1..], x)
  }

  lemma NoDupRest<T>(s: seq<T>)
    requires s != [] && NoDup(s)
    ensures NoDup(s[1..]) && s[0] !in s[1..] && forall x :: x in s <==> x == s[0] || x in s[1..]
  {
    forall x | x in s ensures x == s[0] || x in s[1..] {
      var i :| 0 <= i < |s| && s[i] == x;
      if i > 0 {
        assert s[1..][i - 1] == x;
      }
    }
  }

  lemma NoDupJoin<T>(x: seq<T>, y: seq<T>)
    requires NoDup(x) && NoDup(y) && forall e :: e in x ==> e !in y
    ensures NoDup(x + y)
  {
    forall i, j | 0 <= i < j < |x + y| ensures (x + y)[i] != (x + y)[j] {
      if i < |x| <= j {
        assert x[i] in x && y[j - |x|] in y;
      }
    }
  }

  lemma {:induction false} WithoutNoDup<T>(s: seq<T>, x: T)
    requires NoDup(s)
    ensures NoDup(Without(s, x)) && forall y :: y in Without(s, x) <==> y in s && y != x
  {
    if s != [] {
      NoDupRest(s);
      if s[0] != x {
        WithoutNoDup(s[1..], x);
        NoDupJoin([s[0]], Without(s[1..], x));
      }
    }
  }

  lemma {:induction false} WithoutMultiset<T>(s: seq<T>, x: T)
    requires x in s
    ensures multiset(Without(s, x)) + multiset{x} == multiset(s)
    ensures forall y :: y in Without(s, x) ==> y in s
  {
    assert s == [s[0]] + s[1..];
    if s[0] != x {
      WithoutMultiset(s[1..], x);
    }
  }
}
