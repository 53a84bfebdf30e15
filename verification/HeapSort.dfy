/**
 The heapsort and the binary search of lib/stdlib.c.  Elements have 1-based
 indexes as in the original; `calls` counts calls of the comparison function.
 */
module HeapSort {
  import opened Common

  /** What the comparison function promises: a strcmp()-type result. */
  ghost predicate TotalPreorder<T(!new)>(cmp: (T, T) -> int) {
    && (forall a, b :: cmp(a, b) > 0 <==> cmp(b, a) < 0)
    && (forall a, b, c :: cmp(a, b) <= 0 && cmp(b, c) <= 0 ==> cmp(a, c) <= 0)
  }

  /** The element with index k. */
  function At<T>(s: seq<T>, k: nat): T
    requires 1 <= k <= |s|
  {
    s[k - 1]
  }

  /** Node k is not less than its children within the first n elements. */
  predicate NodeOk<T(!new)>(s: seq<T>, n: nat, k: nat, cmp: (T, T) -> int)
    requires 1 <= k && n <= |s|
  {
    && (2 * k <= n ==> cmp(At(s, k), At(s, 2 * k)) >= 0)
    && (2 * k + 1 <= n ==> cmp(At(s, k), At(s, 2 * k + 1)) >= 0)
  }

  /** The nodes from lo on are a heap, apart perhaps from node hole. */
  ghost predicate HeapBut<T(!new)>(s: seq<T>, n: nat, lo: nat, hole: nat, cmp: (T, T) -> int)
    requires 1 <= lo && n <= |s|
  {
    forall k :: lo <= k && k != hole ==> NodeOk(s, n, k, cmp)
  }

  /** The children of the hole are no greater than the hole's parent. */
  predicate Grandchildren<T(!new)>(s: seq<T>, n: nat, lo: nat, hole: nat, cmp: (T, T) -> int)
    requires 1 <= lo <= hole && n <= |s|
  {
    lo <= hole / 2 && hole <= n ==>
      && (2 * hole <= n ==> cmp(At(s, hole / 2), At(s, 2 * hole)) >= 0)
      && (2 * hole + 1 <= n ==> cmp(At(s, hole / 2), At(s, 2 * hole + 1)) >= 0)
  }

  ghost predicate Heap<T(!new)>(s: seq<T>, n: nat, lo: nat, cmp: (T, T) -> int)
    requires 1 <= lo && n <= |s|
  {
    HeapBut(s, n, lo, 0, cmp)
  }

  /** The greater of the two children, when one is greater than the node. */
  predicate IsMax<T(!new)>(s: seq<T>, n: nat, i: nat, max: nat, cmp: (T, T) -> int)
    requires 1 <= i <= n <= |s|
  {
    && (max == i || max == 2 * i || max == 2 * i + 1) && max <= n
    && (max != i ==> cmp(At(s, max), At(s, i)) > 0)
    && (2 * i <= n ==> cmp(At(s, max), At(s, 2 * i)) >= 0)
    && (2 * i + 1 <= n ==> cmp(At(s, max), At(s, 2 * i + 1)) >= 0)
  }

  function Swapped<T>(s: seq<T>, i: nat, j: nat): (r: seq<T>)
    requires 1 <= i <= |s| && 1 <= j <= |s|
    ensures |r| == |s|
  {
    s[i - 1 := At(s, j)][j - 1 := At(s, i)]
  }

  /** Swapping the hole with its greatest child moves the hole down. */
  lemma FloatDown<T(!new)>(s: seq<T>, n: nat, lo: nat, i: nat, max: nat, cmp: (T, T) -> int)
    requires TotalPreorder(cmp) && 1 <= lo <= i <= n <= |s|
    requires HeapBut(s, n, lo, i, cmp) && Grandchildren(s, n, lo, i, cmp)
    requires IsMax(s, n, i, max, cmp) && max != i
    ensures HeapBut(Swapped(s, i, max), n, lo, max, cmp) && Grandchildren(Swapped(s, i, max), n, lo, max, cmp)
  {
    hide TotalPreorder;
    var s' := Swapped(s, i, max);
    forall k | lo <= k && k != max ensures NodeOk(s', n, k, cmp) {
      NodeAfterSwap(s, n, lo, i, max, k, cmp);
    }
    assert NodeOk(s, n, max, cmp);
  }

  lemma NodeAfterSwap<T(!new)>(s: seq<T>, n: nat, lo: nat, i: nat, max: nat, k: nat, cmp: (T, T) -> int)
    requires TotalPreorder(cmp) && 1 <= lo <= i <= n <= |s|
    requires HeapBut(s, n, lo, i, cmp) && Grandchildren(s, n, lo, i, cmp)
    requires IsMax(s, n, i, max, cmp) && max != i
    requires lo <= k && k != max
    ensures NodeOk(Swapped(s, i, max), n, k, cmp)
  {
    hide TotalPreorder;
    if k != i {
      assert NodeOk(s, n, k, cmp);
    }
  }

  /** When no child is greater than the hole, there is no hole. */
  lemma HoleFilled<T(!new)>(s: seq<T>, n: nat, lo: nat, i: nat, cmp: (T, T) -> int)
    requires 1 <= lo <= i <= n <= |s| && HeapBut(s, n, lo, i, cmp) && IsMax(s, n, i, i, cmp)
    ensures Heap(s, n, lo, cmp)
  {
    forall k | lo <= k ensures NodeOk(s, n, k, cmp) {
    }
  }

  /** The root of a heap is a greatest element. */
  lemma {:induction false} RootIsGreatest<T(!new)>(s: seq<T>, n: nat, k: nat, cmp: (T, T) -> int)
    requires TotalPreorder(cmp) && n <= |s| && Heap(s, n, 1, cmp) && 1 <= k <= n
    ensures cmp(At(s, k), At(s, 1)) <= 0
  {
    if k > 1 {
      RootIsGreatest(s, n, k / 2, cmp);
      assert NodeOk(s, n, k / 2, cmp);
      assert k == 2 * (k / 2) || k == 2 * (k / 2) + 1;
    }
  }

  // ------------------------------------------------------------ comparisons

  /** How often node i can move down in a heap of n. */
  function Levels(i: nat, n: nat): nat
    requires i > 0
    decreases n - i
  {
    if 2 * i > n then 0 else 1 + Levels(2 * i, n)
  }

  function FloorLog2(n: nat): nat {
    if n < 2 then 0 else 1 + FloorLog2(n / 2)
  }

  lemma {:induction false} LevelsFall(i: nat, j: nat, n: nat)
    requires 0 < i <= j
    ensures Levels(j, n) <= Levels(i, n)
    decreases n - i
  {
    if 2 * j <= n {
      LevelsFall(2 * i, 2 * j, n);
    }
  }

  lemma {:induction false} LevelsHalf(i: nat, n: nat)
    requires i > 0
    ensures Levels(2 * i, n) == Levels(i, n / 2)
    decreases n - i
  {
    if 4 * i <= n {
      LevelsHalf(2 * i, n);
    }
  }

  /** A heap of n elements has floor(log2 n) levels below its root. */
  lemma {:induction false} LevelsOfRoot(n: nat)
    ensures Levels(1, n) == FloorLog2(n)
  {
    if n >= 2 {
      LevelsHalf(1, n);
      LevelsOfRoot(n / 2);
    }
  }

  /** FloorLog2 is the logarithm, rounded down. */
  lemma {:induction false} FloorLog2Meaning(n: nat)
    requires n > 0
    ensures Power2(FloorLog2(n)) <= n < 2 * Power2(FloorLog2(n))
  {
    if n >= 2 {
      FloorLog2Meaning(n / 2);
    }
  }

  lemma LevelsBound(i: nat, n: nat, cnt: nat)
    requires 0 < i && n <= cnt
    ensures Levels(i, n) <= FloorLog2(cnt)
  {
    LevelsFall(1, i, n);
    LevelsOfRoot(n);
    LogGrows(n, cnt);
  }

  lemma {:induction false} LogGrows(n: nat, m: nat)
    requires n <= m
    ensures FloorLog2(n) <= FloorLog2(m)
  {
    if n >= 2 {
      LogGrows(n / 2, m / 2);
    }
  }

  // ------------------------------------------------------------- permutation

  /** The first n elements in another order, the others as they are. */
  ghost predicate Shuffled<T>(s: seq<T>, s': seq<T>, n: nat) {
    n <= |s| == |s'| && multiset(s'[..n]) == multiset(s[..n]) && s'[n..] == s[n..]
  }

  lemma SwapShuffles<T>(s: seq<T>, i: nat, j: nat, n: nat)
    requires 1 <= i <= n && 1 <= j <= n && n <= |s|
    ensures Shuffled(s, Swapped(s, i, j), n)
  {
    var p, p' := s[..n], Swapped(s, i, j)[..n];
    assert p' == p[i - 1 := p[j - 1]][j - 1 := p[i - 1]];
  }

  lemma ShuffledTwice<T>(s: seq<T>, s1: seq<T>, s2: seq<T>, n: nat)
    requires Shuffled(s, s1, n) && Shuffled(s1, s2, n)
    ensures Shuffled(s, s2, n)
  {
  }

  lemma ShuffledMore<T>(s: seq<T>, s': seq<T>, n: nat, m: nat)
    requires Shuffled(s, s', n) && n <= m <= |s|
    ensures Shuffled(s, s', m)
  {
    assert s[..m] == s[..n] + s[n..][..m - n];
    assert s'[..m] == s'[..n] + s'[n..][..m - n];
    assert s[m..] == s[n..][m - n..];
    assert s'[m..] == s'[n..][m - n..];
  }

  lemma ShuffledMember<T>(s: seq<T>, s': seq<T>, n: nat, k: nat) returns (j: nat)
    requires Shuffled(s, s', n) && k < n
    ensures j < n && s'[k] == s[j]
  {
    assert s'[..n][k] in multiset(s'[..n]);
    assert s'[k] in s[..n];
    j :| 0 <= j < n && s[..n][j] == s'[k];
  }

  // ------------------------------------------------------------------ methods

  /** Byte k once the n bytes at a and at b have changed places. */
  function ByteAfter(s: seq<int>, a: nat, b: nat, n: nat, k: nat): int
    requires a + n <= |s| && b + n <= |s| && k < |s|
  {
    if a <= k < a + n then s[b + (k - a)] else if b <= k < b + n then s[a + (k - b)] else s[k]
  }

  /** The loop of do_swap, on the bytes of two elements at a and at b. */
  method SwapBytes(bytes: array<int>, a: nat, b: nat, size: nat)
    requires a + size <= b <= bytes.Length - size || b + size <= a <= bytes.Length - size
    modifies bytes
    ensures forall k :: 0 <= k < bytes.Length ==> bytes[k] == ByteAfter(old(bytes[..]), a, b, size, k)
  {
    ghost var s := bytes[..];
    var i := 0;
    while i < size
      invariant 0 <= i <= size
      invariant forall k :: 0 <= k < bytes.Length ==> bytes[k] == ByteAfter(s, a, b, i, k)
    {
      var t := bytes[a + i];
      bytes[a + i] := bytes[b + i];
      bytes[b + i] := t;
      i := i + 1;
    }
  }

  /** do_swap on elements. */
  method DoSwap<T>(a: array<T>, i: nat, j: nat)
    requires 1 <= i <= a.Length && 1 <= j <= a.Length
    modifies a
    ensures a[..] == Swapped(old(a[..]), i, j)
  {
    var t := a[i - 1];
    a[i - 1] := a[j - 1];
    a[j - 1] := t;
  }

  /** The index of the greatest of element i and its children. */
  method MaxOf<T(!new)>(a: array<T>, i: nat, cnt: nat, cmp: (T, T) -> int) returns (max: nat, ghost calls: nat)
    requires TotalPreorder(cmp) && 1 <= i <= cnt <= a.Length
    ensures IsMax(a[..], cnt, i, max, cmp)
    ensures calls <= if 2 * i <= cnt then 2 else 0
  {
    var left, right := 2 * i, 2 * i + 1;
    max, calls := i, 0;
    if left <= cnt {
      calls := calls + 1;
      if cmp(a[left - 1], a[max - 1]) > 0 {
        max := left;
      }
    }
    if right <= cnt {
      calls := calls + 1;
      if cmp(a[right - 1], a[max - 1]) > 0 {
        max := right;
      }
    }
  }

  /** heapify */
  method Heapify<T(!new)>(a: array<T>, i: nat, cnt: nat, cmp: (T, T) -> int) returns (ghost calls: nat)
    requires TotalPreorder(cmp) && 1 <= i <= cnt <= a.Length
    requires HeapBut(a[..], cnt, i, i, cmp)
    modifies a
    ensures Heap(a[..], cnt, i, cmp) && Shuffled(old(a[..]), a[..], cnt)
    ensures calls <= 2 * Levels(i, cnt)
  {
    var j := i;
    calls := 0;
    while true
      invariant i <= j <= cnt
      invariant HeapBut(a[..], cnt, i, j, cmp) && Grandchildren(a[..], cnt, i, j, cmp)
      invariant Shuffled(old(a[..]), a[..], cnt)
      invariant calls + 2 * Levels(j, cnt) <= 2 * Levels(i, cnt)
      decreases cnt - j
    {
      ghost var s := a[..];
      var max, more := MaxOf(a, j, cnt, cmp);
      calls := calls + more;
      if max == j {
        HoleFilled(s, cnt, i, j, cmp);
        break;
      }
      FloatDown(s, cnt, i, j, max, cmp);
      SwapShuffles(s, j, max, cnt);
      ShuffledTwice(old(a[..]), s, Swapped(s, j, max), cnt);
      LevelsFall(2 * j, max, cnt);
      DoSwap(a, j, max);
      j := max;
    }
  }

  /** No element is greater than a later one. */
  ghost predicate SortedBy<T(!new)>(s: seq<T>, cmp: (T, T) -> int) {
    forall i, j :: 0 <= i < j < |s| ==> cmp(s[i], s[j]) <= 0
  }

  /** What holds when the first i elements are still a heap and the rest is done. */
  ghost predicate Done<T(!new)>(s: seq<T>, i: nat, cmp: (T, T) -> int)
    requires i <= |s|
  {
    forall p, q :: 0 <= p < q && i <= q < |s| ==> cmp(s[p], s[q]) <= 0
  }

  /** The greatest element of the heap joins the sorted end. */
  lemma ExtractMax<T(!new)>(s: seq<T>, i: nat, cmp: (T, T) -> int)
    requires TotalPreorder(cmp) && 1 < i <= |s| && Heap(s, i, 1, cmp) && Done(s, i, cmp)
    ensures HeapBut(Swapped(s, 1, i), i - 1, 1, 1, cmp) && Done(Swapped(s, 1, i), i - 1, cmp)
  {
    RootSwapped(s, i, cmp);
    MaxPlaced(s, i, cmp);
  }

  lemma RootSwapped<T(!new)>(s: seq<T>, i: nat, cmp: (T, T) -> int)
    requires 1 < i <= |s| && Heap(s, i, 1, cmp)
    ensures HeapBut(Swapped(s, 1, i), i - 1, 1, 1, cmp)
  {
    var s', n := Swapped(s, 1, i), i - 1;
    forall k | 1 <= k && k != 1 ensures NodeOk(s', n, k, cmp) {
      assert NodeOk(s, i, k, cmp);
    }
  }

  lemma MaxPlaced<T(!new)>(s: seq<T>, i: nat, cmp: (T, T) -> int)
    requires TotalPreorder(cmp) && 1 < i <= |s| && Heap(s, i, 1, cmp) && Done(s, i, cmp)
    ensures Done(Swapped(s, 1, i), i - 1, cmp)
  {
    hide TotalPreorder, Heap;
    var s' := Swapped(s, 1, i);
    forall p, q | 0 <= p < q && i - 1 <= q < |s'| ensures cmp(s'[p], s'[q]) <= 0 {
      var p0 := if p == 0 then i - 1 else p;
      if q == i - 1 {
        RootIsGreatest(s, i, p0 + 1, cmp);
      }
    }
  }

  /** Shuffling the heap does not disturb the sorted end. */
  lemma DoneAfterShuffle<T(!new)>(s: seq<T>, s': seq<T>, i: nat, cmp: (T, T) -> int)
    requires i <= |s| && Done(s, i, cmp) && Shuffled(s, s', i)
    ensures Done(s', i, cmp)
  {
    forall p, q | 0 <= p < q && i <= q < |s'| ensures cmp(s'[p], s'[q]) <= 0 {
      assert s'[q] == s'[i..][q - i] == s[q];
      if p < i {
        var j := ShuffledMember(s, s', i, p);
      } else {
        assert s'[p] == s'[i..][p - i] == s[p];
      }
    }
  }

  /** So many calls for that many rounds of heapify. */
  predicate Affordable(calls: nat, rounds: nat, log: nat) {
    calls <= rounds * (2 * log)
  }

  /** One more call of heapify. */
  lemma OneMoreHeapify(calls: nat, more: nat, rounds: nat, levels: nat, log: nat)
    requires Affordable(calls, rounds, log) && more <= 2 * levels && levels <= log
    ensures Affordable(calls + more, rounds + 1, log)
  {
  }

  lemma TotalCalls(calls: nat, cnt: nat, log: nat, rounds: nat)
    requires Affordable(calls, rounds, log) && 2 * rounds <= 3 * cnt
    ensures calls <= 3 * cnt * log
  {
    assert rounds * (2 * log) == (2 * rounds) * log;
    ProductAtMost(2 * rounds, 3 * cnt, log);
  }

  /** The first loop of sort. */
  method BuildHeap<T(!new)>(a: array<T>, cmp: (T, T) -> int) returns (ghost calls: nat)
    requires TotalPreorder(cmp)
    modifies a
    ensures Heap(a[..], a.Length, 1, cmp) && Shuffled(old(a[..]), a[..], a.Length)
    ensures Affordable(calls, a.Length / 2, FloorLog2(a.Length))
  {
    var i := a.Length / 2;
    calls := 0;
    while i > 0
      invariant 0 <= i <= a.Length / 2
      invariant Heap(a[..], a.Length, i + 1, cmp) && Shuffled(old(a[..]), a[..], a.Length)
      invariant Affordable(calls, a.Length / 2 - i, FloorLog2(a.Length))
    {
      ghost var s := a[..];
      assert HeapBut(s, a.Length, i, i, cmp);
      ghost var more := Heapify(a, i, a.Length, cmp);
      ShuffledTwice(old(a[..]), s, a[..], a.Length);
      LevelsBound(i, a.Length, a.Length);
      OneMoreHeapify(calls, more, a.Length / 2 - i, Levels(i, a.Length), FloorLog2(a.Length));
      calls := calls + more;
      i := i - 1;
    }
  }

  /** sort: a sorted permutation, by at most 3 n floor(log2 n) comparisons. */
  method Sort<T(!new)>(a: array<T>, cmp: (T, T) -> int) returns (ghost calls: nat)
    requires TotalPreorder(cmp)
    modifies a
    ensures SortedBy(a[..], cmp) && multiset(a[..]) == multiset(old(a[..]))
    ensures calls <= 3 * a.Length * FloorLog2(a.Length)
  {
    hide TotalPreorder, Done, Shuffled, HeapBut, Affordable;
    ghost var orig := a[..];
    var cnt := a.Length;
    ghost var log := FloorLog2(cnt);
    calls := BuildHeap(a, cmp);
    NothingDone(a[..], cmp);
    var i := cnt;
    ghost var rounds := cnt / 2;
    while i > 1
      invariant 0 <= i <= cnt && rounds == cnt / 2 + (cnt - i)
      invariant Heap(a[..], i, 1, cmp) && Done(a[..], i, cmp) && Shuffled(orig, a[..], cnt)
      invariant Affordable(calls, rounds, log)
    {
      ghost var s := a[..];
      ExtractMax(s, i, cmp);
      SwapShuffles(s, 1, i, cnt);
      DoSwap(a, 1, i);
      ghost var s1 := a[..];
      ghost var more := Heapify(a, 1, i - 1, cmp);
      DoneAfterShuffle(s1, a[..], i - 1, cmp);
      ShuffledMore(s1, a[..], i - 1, cnt);
      ShuffledTwice(orig, s, s1, cnt);
      ShuffledTwice(orig, s1, a[..], cnt);
      LevelsBound(1, i - 1, cnt);
      OneMoreHeapify(calls, more, rounds, Levels(1, i - 1), log);
      calls := calls + more;
      rounds := rounds + 1;
      i := i - 1;
    }
    TotalCalls(calls, cnt, log, rounds);
    AllDone(orig, a[..], i, cmp);
  }

  lemma NothingDone<T(!new)>(s: seq<T>, cmp: (T, T) -> int)
    ensures Done(s, |s|, cmp)
  {
  }

  lemma AllDone<T(!new)>(orig: seq<T>, s: seq<T>, i: nat, cmp: (T, T) -> int)
    requires i <= 1 && i <= |s| && Done(s, i, cmp) && |orig| == |s| && Shuffled(orig, s, |s|)
    ensures SortedBy(s, cmp) && multiset(s) == multiset(orig)
  {
    assert s[..|s|] == s && orig[..|s|] == orig;
  }

  /** binary_search finds a match exactly when there is one. */
  method BinarySearch<T(!new)>(key: T, a: array<T>, cmp: (T, T) -> int) returns (r: Option<nat>)
    requires TotalPreorder(cmp) && SortedBy(a[..], cmp)
    ensures r.Some? ==> r.value < a.Length && cmp(key, a[r.value]) == 0
    ensures r.None? ==> forall k :: 0 <= k < a.Length ==> cmp(key, a[k]) != 0
  {
    var first, last := 0, a.Length;
    while first < last
      invariant 0 <= first <= last <= a.Length
      invariant forall k :: 0 <= k < first ==> cmp(key, a[k]) > 0
      invariant forall k :: last <= k < a.Length ==> cmp(key, a[k]) < 0
    {
      var range := last - first;
      var middle := first + range / 2;
      var c := cmp(key, a[middle]);
      if c < 0 {
        forall k | middle <= k < last ensures cmp(key, a[k]) < 0 {
          assert k == middle || cmp(a[..][middle], a[..][k]) <= 0;
          Below(key, a[middle], a[k], cmp);
        }
        last := middle;
      } else if c > 0 {
        forall k | first <= k <= middle ensures cmp(key, a[k]) > 0 {
          assert k == middle || cmp(a[..][k], a[..][middle]) <= 0;
          Above(key, a[middle], a[k], cmp);
        }
        first := middle + 1;
      } else {
        return Some(middle);
      }
    }
    r := None;
  }

  /** A key below m is below whatever is not below m. */
  lemma Below<T(!new)>(key: T, m: T, x: T, cmp: (T, T) -> int)
    requires TotalPreorder(cmp) && cmp(key, m) < 0 && (x == m || cmp(m, x) <= 0)
    ensures cmp(key, x) < 0
  {
    assert cmp(key, x) >= 0 ==> cmp(m, key) <= 0;
  }

  lemma Above<T(!new)>(key: T, m: T, x: T, cmp: (T, T) -> int)
    requires TotalPreorder(cmp) && cmp(key, m) > 0 && (x == m || cmp(x, m) <= 0)
    ensures cmp(key, x) > 0
  {
  }
}
