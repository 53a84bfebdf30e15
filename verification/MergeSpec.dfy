/**
 What the natural merge sort of lib/kernel/list.c does to the order of the
 elements, as functions on sequences, and why that sorts them stably.

 The class in List.dfy is proved to move its elements as `MergeSort` says.
 */
module MergeSpec {
  import opened Common

  /** `less` is a strict weak order on these elements. */
  ghost predicate StrictWeak<E>(less: (E, E) -> bool, s: set<E>) {
    && (forall x :: x in s ==> !less(x, x))
    && (forall x, y, z {:trigger x in s, y in s, z in s} ::
          x in s && y in s && z in s && less(x, y) && less(y, z) ==> less(x, z))
    && (forall x, y, z {:trigger x in s, y in s, z in s} ::
          x in s && y in s && z in s && !less(x, y) && !less(y, z) ==> !less(x, z))
  }

  function Elements<E>(s: seq<E>): set<E> {
    set x | x in s
  }

  /** No element is less than one before it. */
  ghost predicate Sorted<E>(less: (E, E) -> bool, s: seq<E>) {
    forall i, j :: 0 <= i < j < |s| ==> !less(s[j], s[i])
  }

  /** The elements of s that are neither less nor greater than x, in order. */
  function Class<E>(less: (E, E) -> bool, x: E, s: seq<E>): seq<E> {
    if s == [] then []
    else (if !less(x, s[0]) && !less(s[0], x) then [s[0]] else []) + Class(less, x, s[1..])
  }

  /** The same elements, and equivalent ones in the same order. */
  ghost predicate Rearranged<E>(less: (E, E) -> bool, s: seq<E>, r: seq<E>) {
    && multiset(r) == multiset(s)
    && forall x :: x in s ==> Class(less, x, r) == Class(less, x, s)
  }

  /** The number of elements that are less than the one before, plus one. */
  function Runs<E>(less: (E, E) -> bool, s: seq<E>): nat {
    if |s| <= 1 then |s|
    else (if less(s[1], s[0]) then 1 else 0) + Runs(less, s[1..])
  }

  /** find_end_of_run from place i: the end of the run that starts there. */
  function RunEnd<E>(less: (E, E) -> bool, s: seq<E>, i: nat): (n: nat)
    requires i < |s|
    ensures i < n <= |s|
    decreases |s| - i
  {
    if i + 1 == |s| || less(s[i + 1], s[i]) then i + 1 else RunEnd(less, s, i + 1)
  }

  /** inplace_merge: on a tie the element of the first run goes first. */
  function Merge<E>(less: (E, E) -> bool, a: seq<E>, b: seq<E>): (r: seq<E>)
    ensures |r| == |a| + |b|
  {
    if a == [] then b
    else if b == [] then a
    else if !less(b[0], a[0]) then [a[0]] + Merge(less, a[1..], b)
    else [b[0]] + Merge(less, a, b[1..])
  }

  /** One pass of list_sort: the runs merged two by two. */
  function Pass<E>(less: (E, E) -> bool, s: seq<E>): (r: seq<E>)
    ensures |r| == |s|
    decreases |s|
  {
    if s == [] then []
    else
      var m := RunEnd(less, s, 0);
      if m == |s| then s
      else
        var e := RunEnd(less, s, m);
        Merge(less, s[..m], s[m..e]) + Pass(less, s[e..])
  }

  /** output_run_cnt at the end of a pass. */
  function PassRuns<E>(less: (E, E) -> bool, s: seq<E>): nat
    decreases |s|
  {
    if s == [] then 0
    else
      var m := RunEnd(less, s, 0);
      if m == |s| then 1 else 1 + PassRuns(less, s[RunEnd(less, s, m)..])
  }

  /** What a pass does first when there are two runs, a and b, to merge. */
  lemma PassUnfolds<E>(less: (E, E) -> bool, s: seq<E>, m: nat, e: nat, a: seq<E>, b: seq<E>, c: seq<E>)
    requires s != [] && m == RunEnd(less, s, 0) && m < |s| && e == RunEnd(less, s, m)
    requires a == s[..m] && b == s[m..e] && c == s[e..]
    ensures Pass(less, s) == Merge(less, a, b) + Pass(less, c)
    ensures PassRuns(less, s) == 1 + PassRuns(less, c)
  {
  }

  // ---------------------------------------------------------------- the runs

  /** `RunEnd` is where the elements stop being in order. */
  lemma {:induction false} RunEndMeaning<E>(less: (E, E) -> bool, s: seq<E>, i: nat)
    requires i < |s|
    ensures forall k :: i < k < RunEnd(less, s, i) ==> !less(s[k], s[k - 1])
    ensures RunEnd(less, s, i) < |s| ==> less(s[RunEnd(less, s, i)], s[RunEnd(less, s, i) - 1])
    decreases |s| - i
  {
    if i + 1 < |s| && !less(s[i + 1], s[i]) {
      RunEndMeaning(less, s, i + 1);
    }
  }

  lemma {:induction false} InOrderOneRun<E>(less: (E, E) -> bool, s: seq<E>)
    requires s != [] && forall k :: 0 < k < |s| ==> !less(s[k], s[k - 1])
    ensures Runs(less, s) == 1
  {
    if |s| > 1 {
      assert !less(s[1], s[0]);
      forall k | 0 < k < |s| - 1
        ensures !less(s[1..][k], s[1..][k - 1])
      {
        assert !less(s[k + 1], s[k]);
      }
      InOrderOneRun(less, s[1..]);
    }
  }

  lemma {:induction false} RunsBreak<E>(less: (E, E) -> bool, a: seq<E>, b: seq<E>)
    requires a != [] && b != [] && less(b[0], a[|a| - 1])
    ensures Runs(less, a + b) == Runs(less, a) + Runs(less, b)
  {
    if |a| == 1 {
      assert (a + b)[1..] == b;
    } else {
      assert (a + b)[1..] == a[1..] + b;
      RunsBreak(less, a[1..], b);
    }
  }

  /** The run from place i, as a sequence of its own. */
  lemma OneRun<E>(less: (E, E) -> bool, s: seq<E>, i: nat, n: nat)
    requires i < |s| && n == RunEnd(less, s, i)
    ensures Runs(less, s[i..n]) == 1
  {
    RunEndMeaning(less, s, i);
    InOrderOneRun(less, s[i..n]);
  }

  lemma JoinSlices<E>(s: seq<E>, i: nat, n: nat)
    requires i <= n <= |s|
    ensures s[i..n] + s[n..] == s[i..]
  {
  }

  lemma RunThenRest<E>(less: (E, E) -> bool, s: seq<E>, i: nat, n: nat)
    requires i < |s| && n == RunEnd(less, s, i)
    ensures Runs(less, s[i..]) == 1 + Runs(less, s[n..])
  {
    var a, b := s[i..n], s[n..];
    OneRun(less, s, i, n);
    JoinSlices(s, i, n);
    if n < |s| {
      assert less(b[0], a[|a| - 1]) by {
        RunEndMeaning(less, s, i);
      }
      RunsBreak(less, a, b);
    } else {
      assert a == s[i..];
    }
  }

  lemma {:induction false} RunsOfSum<E>(less: (E, E) -> bool, a: seq<E>, b: seq<E>)
    ensures Runs(less, a + b) <= Runs(less, a) + Runs(less, b)
  {
    if a == [] {
      assert a + b == b;
    } else if |a| == 1 {
      assert (a + b)[1..] == b;
    } else {
      assert (a + b)[1..] == a[1..] + b;
      RunsOfSum(less, a[1..], b);
    }
  }

  /** A single run is sorted. */
  lemma {:induction false} OneRunSorted<E>(less: (E, E) -> bool, s: seq<E>)
    requires StrictWeak(less, Elements(s)) && Runs(less, s) <= 1
    ensures Sorted(less, s)
  {
    if |s| > 1 {
      RunsPositive(less, s[1..]);
      assert Elements(s[1..]) <= Elements(s);
      OneRunSorted(less, s[1..]);
      forall j | 1 < j < |s|
        ensures !less(s[j], s[0])
      {
        assert !less(s[1..][j - 1], s[1..][0]);
        assert s[0] in Elements(s) && s[1] in Elements(s) && s[j] in Elements(s);
      }
      forall i, j | 0 <= i < j < |s|
        ensures !less(s[j], s[i])
      {
        if i > 0 {
          assert !less(s[1..][j - 1], s[1..][i - 1]);
        }
      }
    }
  }

  lemma {:induction false} RunsPositive<E>(less: (E, E) -> bool, s: seq<E>)
    ensures s != [] ==> Runs(less, s) >= 1
  {
    if |s| > 1 {
      RunsPositive(less, s[1..]);
    }
  }

  /** And a sorted sequence is a single run. */
  lemma {:induction false} SortedOneRun<E>(less: (E, E) -> bool, s: seq<E>)
    requires Sorted(less, s)
    ensures Runs(less, s) <= 1
  {
    if |s| > 1 {
      SortedOneRun(less, s[1..]);
    }
  }

  // --------------------------------------------------------------- the merge

  lemma HeadAndTail<E>(s: seq<E>)
    requires s != []
    ensures multiset(s) == multiset{s[0]} + multiset(s[1..])
  {
    assert s == [s[0]] + s[1..];
  }

  lemma {:induction false} MergeElements<E>(less: (E, E) -> bool, a: seq<E>, b: seq<E>)
    ensures multiset(Merge(less, a, b)) == multiset(a) + multiset(b)
  {
    var r := Merge(less, a, b);
    if a == [] || b == [] {
    } else if !less(b[0], a[0]) {
      MergeElements(less, a[1..], b);
      HeadAndTail(a);
      HeadAndTail(r);
      assert r[1..] == Merge(less, a[1..], b);
    } else {
      MergeElements(less, a, b[1..]);
      HeadAndTail(b);
      HeadAndTail(r);
      assert r[1..] == Merge(less, a, b[1..]);
    }
  }

  lemma {:induction false} MergeMember<E>(less: (E, E) -> bool, a: seq<E>, b: seq<E>, y: E)
    requires y in Merge(less, a, b)
    ensures y in a || y in b
  {
    if a == [] || b == [] {
    } else if !less(b[0], a[0]) {
      if y != a[0] {
        MergeMember(less, a[1..], b, y);
      }
    } else if y != b[0] {
      MergeMember(less, a, b[1..], y);
    }
  }

  lemma SortedCons<E>(less: (E, E) -> bool, x: E, s: seq<E>)
    requires Sorted(less, s) && forall y :: y in s ==> !less(y, x)
    ensures Sorted(less, [x] + s)
  {
  }

  lemma {:induction false} MergeSorted<E>(less: (E, E) -> bool, a: seq<E>, b: seq<E>)
    requires StrictWeak(less, Elements(a) + Elements(b)) && Sorted(less, a) && Sorted(less, b)
    ensures Sorted(less, Merge(less, a, b))
  {
    if a == [] || b == [] {
    } else if !less(b[0], a[0]) {
      assert Elements(a[1..]) <= Elements(a);
      MergeSorted(less, a[1..], b);
      forall y | y in Merge(less, a[1..], b)
        ensures !less(y, a[0])
      {
        MergeMember(less, a[1..], b, y);
        FirstIsLeast(less, a, b, y);
      }
      SortedCons(less, a[0], Merge(less, a[1..], b));
    } else {
      assert Elements(b[1..]) <= Elements(b);
      MergeSorted(less, a, b[1..]);
      forall y | y in Merge(less, a, b[1..])
        ensures !less(y, b[0])
      {
        MergeMember(less, a, b[1..], y);
        SecondIsLeast(less, a, b, y);
      }
      SortedCons(less, b[0], Merge(less, a, b[1..]));
    }
  }

  lemma FirstIsLeast<E>(less: (E, E) -> bool, a: seq<E>, b: seq<E>, y: E)
    requires StrictWeak(less, Elements(a) + Elements(b)) && Sorted(less, a) && Sorted(less, b)
    requires a != [] && b != [] && !less(b[0], a[0]) && (y in a[1..] || y in b)
    ensures !less(y, a[0])
  {
    var s := Elements(a) + Elements(b);
    assert a[0] in s && b[0] in s && y in s;
    if y in b {
      var j :| 0 <= j < |b| && b[j] == y;
      assert !less(y, b[0]);
    }
  }

  lemma SecondIsLeast<E>(less: (E, E) -> bool, a: seq<E>, b: seq<E>, y: E)
    requires StrictWeak(less, Elements(a) + Elements(b)) && Sorted(less, a) && Sorted(less, b)
    requires a != [] && b != [] && less(b[0], a[0]) && (y in a || y in b[1..])
    ensures !less(y, b[0])
  {
    var s := Elements(a) + Elements(b);
    assert a[0] in s && b[0] in s && y in s;
    if y in a {
      var i :| 0 <= i < |a| && a[i] == y;
      assert !less(y, a[0]);
    }
  }

  lemma {:induction false} ClassOfSum<E>(less: (E, E) -> bool, x: E, a: seq<E>, b: seq<E>)
    ensures Class(less, x, a + b) == Class(less, x, a) + Class(less, x, b)
  {
    if a == [] {
      assert a + b == b;
    } else {
      assert (a + b)[1..] == a[1..] + b;
      ClassOfSum(less, x, a[1..], b);
    }
  }

  lemma {:induction false} ClassEmpty<E>(less: (E, E) -> bool, x: E, s: seq<E>)
    requires forall y :: y in s ==> less(x, y) || less(y, x)
    ensures Class(less, x, s) == []
  {
    if s != [] {
      ClassEmpty(less, x, s[1..]);
    }
  }

  predicate Equivalent<E>(less: (E, E) -> bool, x: E, y: E) {
    !less(x, y) && !less(y, x)
  }

  /** What stability needs: an element of b that is moved past elements of a is
      equivalent to none of them. */
  ghost predicate MovesSafely<E>(less: (E, E) -> bool, x: E, a: seq<E>, b: seq<E>) {
    forall i, j, m :: 0 <= i <= m < |a| && 0 <= j < |b| && less(b[j], a[i]) && Equivalent(less, x, b[j]) ==>
      !Equivalent(less, x, a[m])
  }

  lemma MovesSafelyTail<E>(less: (E, E) -> bool, x: E, a: seq<E>, b: seq<E>)
    requires MovesSafely(less, x, a, b)
    ensures a != [] ==> MovesSafely(less, x, a[1..], b)
    ensures b != [] ==> MovesSafely(less, x, a, b[1..])
  {
  }

  lemma {:induction false} MergeKeepsClass<E>(less: (E, E) -> bool, x: E, a: seq<E>, b: seq<E>)
    requires MovesSafely(less, x, a, b)
    ensures Class(less, x, Merge(less, a, b)) == Class(less, x, a) + Class(less, x, b)
  {
    var r := Merge(less, a, b);
    MovesSafelyTail(less, x, a, b);
    if a == [] || b == [] {
    } else if !less(b[0], a[0]) {
      MergeKeepsClass(less, x, a[1..], b);
      assert r[1..] == Merge(less, a[1..], b);
    } else {
      MergeKeepsClass(less, x, a, b[1..]);
      assert r[1..] == Merge(less, a, b[1..]);
      if Equivalent(less, x, b[0]) {
        ClassEmpty(less, x, a);
      }
    }
  }

  lemma SortedMovesSafely<E>(less: (E, E) -> bool, x: E, a: seq<E>, b: seq<E>)
    requires StrictWeak(less, Elements(a) + Elements(b) + {x}) && Sorted(less, a)
    ensures MovesSafely(less, x, a, b)
  {
    var s := Elements(a) + Elements(b) + {x};
    forall i, j, m | 0 <= i <= m < |a| && 0 <= j < |b| && less(b[j], a[i]) && Equivalent(less, x, b[j])
      ensures !Equivalent(less, x, a[m])
    {
      assert a[i] in s && a[m] in s && b[j] in s && x in s;
      assert !less(a[m], a[i]) by {
        assert i < m ==> !less(a[m], a[i]);
      }
    }
  }

  /** Every class keeps its order, the first run's elements going first. */
  lemma MergeStable<E>(less: (E, E) -> bool, x: E, a: seq<E>, b: seq<E>)
    requires StrictWeak(less, Elements(a) + Elements(b) + {x}) && Sorted(less, a)
    ensures Class(less, x, Merge(less, a, b)) == Class(less, x, a) + Class(less, x, b)
  {
    SortedMovesSafely(less, x, a, b);
    MergeKeepsClass(less, x, a, b);
  }

  // ---------------------------------------------------------------- the pass

  /** StrictWeak of fewer elements. */
  lemma FewerElements<E>(less: (E, E) -> bool, s: set<E>, r: set<E>)
    requires StrictWeak(less, s) && r <= s
    ensures StrictWeak(less, r)
  {
  }

  lemma RunSorted<E>(less: (E, E) -> bool, s: seq<E>, i: nat, n: nat)
    requires i < |s| && n == RunEnd(less, s, i) && StrictWeak(less, Elements(s))
    ensures Sorted(less, s[i..n])
  {
    OneRun(less, s, i, n);
    FewerElements(less, Elements(s), Elements(s[i..n]));
    OneRunSorted(less, s[i..n]);
  }

  lemma PartsOrdered<E>(less: (E, E) -> bool, s: seq<E>, m: nat, e: nat, more: set<E>)
    requires m <= e <= |s| && StrictWeak(less, Elements(s) + more)
    ensures StrictWeak(less, Elements(s[..m]) + Elements(s[m..e]) + more) && StrictWeak(less, Elements(s[e..]) + more)
  {
    FewerElements(less, Elements(s) + more, Elements(s[..m]) + Elements(s[m..e]) + more);
    FewerElements(less, Elements(s) + more, Elements(s[e..]) + more);
  }

  lemma SplitElements<E>(s: seq<E>, m: nat, e: nat)
    requires m <= e <= |s|
    ensures multiset(s) == multiset(s[..m]) + multiset(s[m..e]) + multiset(s[e..])
  {
    assert s == s[..m] + s[m..e] + s[e..];
  }

  lemma JoinElements<E>(a: seq<E>, b: seq<E>, s: seq<E>)
    requires s == a + b
    ensures multiset(s) == multiset(a) + multiset(b)
  {
  }

  lemma {:induction false} PassElements<E>(less: (E, E) -> bool, s: seq<E>)
    ensures multiset(Pass(less, s)) == multiset(s)
    decreases |s|
  {
    if s != [] && RunEnd(less, s, 0) != |s| {
      var m := RunEnd(less, s, 0);
      var e := RunEnd(less, s, m);
      PassElements(less, s[e..]);
      MergeElements(less, s[..m], s[m..e]);
      SplitElements(s, m, e);
      JoinElements(Merge(less, s[..m], s[m..e]), Pass(less, s[e..]), Pass(less, s));
    }
  }

  lemma {:induction false} PassStable<E>(less: (E, E) -> bool, x: E, s: seq<E>)
    requires StrictWeak(less, Elements(s) + {x})
    ensures Class(less, x, Pass(less, s)) == Class(less, x, s)
    decreases |s|
  {
    if s != [] && RunEnd(less, s, 0) != |s| {
      var m := RunEnd(less, s, 0);
      var e := RunEnd(less, s, m);
      FewerElements(less, Elements(s) + {x}, Elements(s));
      RunSorted(less, s, 0, m);
      PartsOrdered(less, s, m, e, {x});
      var a, b, c := s[..m], s[m..e], s[e..];
      assert a == s[0..m];
      assert s == a + b + c;
      PassStable(less, x, c);
      MergeStable(less, x, a, b);
      ClassOfSum(less, x, Merge(less, a, b), Pass(less, c));
      ClassOfSum(less, x, a + b, c);
      ClassOfSum(less, x, a, b);
    }
  }

  /** A pass halves the number of runs, rounding up, and counts them as it goes. */
  lemma {:induction false} PassHalvesRuns<E>(less: (E, E) -> bool, s: seq<E>)
    requires StrictWeak(less, Elements(s))
    ensures PassRuns(less, s) == (Runs(less, s) + 1) / 2
    ensures Runs(less, Pass(less, s)) <= PassRuns(less, s)
    decreases |s|
  {
    if s != [] {
      var m := RunEnd(less, s, 0);
      RunThenRest(less, s, 0, m);
      assert s[0..] == s;
      if m < |s| {
        var e := RunEnd(less, s, m);
        RunThenRest(less, s, m, e);
        assert Elements(s) + {} == Elements(s);
        PartsOrdered(less, s, m, e, {});
        assert Elements(s[e..]) + {} == Elements(s[e..]);
        PassHalvesRuns(less, s[e..]);
        MergedIsOneRun(less, s, m, e);
        RunsOfSum(less, Merge(less, s[..m], s[m..e]), Pass(less, s[e..]));
      }
    }
  }

  lemma MergedIsOneRun<E>(less: (E, E) -> bool, s: seq<E>, m: nat, e: nat)
    requires s != [] && StrictWeak(less, Elements(s))
    requires m == RunEnd(less, s, 0) && m < |s| && e == RunEnd(less, s, m)
    ensures Runs(less, Merge(less, s[..m], s[m..e])) <= 1
  {
    RunSorted(less, s, 0, m);
    RunSorted(less, s, m, e);
    assert s[..m] == s[0..m];
    FewerElements(less, Elements(s), Elements(s[..m]) + Elements(s[m..e]));
    MergeSorted(less, s[..m], s[m..e]);
    SortedOneRun(less, Merge(less, s[..m], s[m..e]));
  }

  // ---------------------------------------------------------------- the sort

  /** list_sort: passes until one leaves at most one run. */
  ghost function MergeSort<E>(less: (E, E) -> bool, s: seq<E>): seq<E>
    requires StrictWeak(less, Elements(s))
    decreases Runs(less, s)
  {
    if PassRuns(less, s) <= 1 then Pass(less, s)
    else
      PassHalvesRuns(less, s);
      PassMembers(less, s);
      MergeSort(less, Pass(less, s))
  }

  /** The number of passes that list_sort makes. */
  ghost function Passes<E>(less: (E, E) -> bool, s: seq<E>): nat
    requires StrictWeak(less, Elements(s))
    decreases Runs(less, s)
  {
    if PassRuns(less, s) <= 1 then 1
    else
      PassHalvesRuns(less, s);
      PassMembers(less, s);
      1 + Passes(less, Pass(less, s))
  }

  lemma SameElements<E>(s: seq<E>, r: seq<E>)
    requires multiset(s) == multiset(r)
    ensures Elements(s) == Elements(r)
  {
    forall x | x in s
      ensures x in r
    {
      assert x in multiset(s);
    }
    forall x | x in r
      ensures x in s
    {
      assert x in multiset(r);
    }
  }

  lemma PassMembers<E>(less: (E, E) -> bool, s: seq<E>)
    ensures Elements(Pass(less, s)) == Elements(s)
  {
    PassElements(less, s);
    SameElements(s, Pass(less, s));
  }

  /** list_sort sorts, loses nothing, and keeps equivalent elements in order. */
  lemma {:induction false} MergeSortSortsStably<E>(less: (E, E) -> bool, s: seq<E>)
    requires StrictWeak(less, Elements(s))
    ensures Sorted(less, MergeSort(less, s)) && Rearranged(less, s, MergeSort(less, s))
    decreases Runs(less, s)
  {
    var p := Pass(less, s);
    PassHalvesRuns(less, s);
    PassElements(less, s);
    PassMembers(less, s);
    forall x | x in s
      ensures Class(less, x, p) == Class(less, x, s)
    {
      assert Elements(s) + {x} == Elements(s);
      PassStable(less, x, s);
    }
    if PassRuns(less, s) <= 1 {
      OneRunSorted(less, p);
    } else {
      MergeSortSortsStably(less, p);
      forall x | x in s
        ensures Class(less, x, MergeSort(less, s)) == Class(less, x, s)
      {
        assert x in Elements(s);
        assert x in p;
      }
    }
  }

  /** ceil(log2 n), for n > 0. */
  function CeilLog2(n: nat): nat {
    if n <= 1 then 0 else 1 + CeilLog2((n + 1) / 2)
  }

  lemma {:induction false} CeilLog2Monotonic(m: nat, n: nat)
    requires m <= n
    ensures CeilLog2(m) <= CeilLog2(n)
  {
    if m > 1 {
      CeilLog2Monotonic((m + 1) / 2, (n + 1) / 2);
    }
  }

  /** It makes one pass, or as many as it takes to halve the runs down to one. */
  lemma {:induction false} PassesAreLogarithmic<E>(less: (E, E) -> bool, s: seq<E>)
    requires StrictWeak(less, Elements(s))
    ensures Passes(less, s) <= if Runs(less, s) <= 2 then 1 else CeilLog2(Runs(less, s))
    decreases Runs(less, s)
  {
    PassHalvesRuns(less, s);
    if PassRuns(less, s) > 1 {
      var p := Pass(less, s);
      PassMembers(less, s);
      PassesAreLogarithmic(less, p);
      CeilLog2Monotonic(Runs(less, p), (Runs(less, s) + 1) / 2);
      CeilLog2Monotonic(2, (Runs(less, s) + 1) / 2);
    }
  }

  /** `CeilLog2` is the rounded-up logarithm: the least k with 2^k >= n. */
  lemma {:induction false} CeilLog2Meaning(n: nat)
    requires n > 0
    ensures Power2(CeilLog2(n)) >= n
    ensures n > 1 ==> Power2(CeilLog2(n) - 1) < n
  {
    if n > 1 {
      CeilLog2Meaning((n + 1) / 2);
    }
  }
}
