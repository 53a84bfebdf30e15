/**
 The hash table of lib/kernel/hash.c.  Its elements are pointers to the caller's
 structures; `less` compares what they hold and `hash` hashes it.
 */
module Hash {
  import opened Bits
  import opened Common

  // ------------------------------------------------------ powers of two

  /** turn_off_least_1bit */
  function TurnOffLeast1Bit(x: Word): Word
    requires x > 0
  {
    And(x, x - 1)
  }

  /** is_power_of_2 */
  predicate IsPowerOf2(x: Word) {
    x != 0 && TurnOffLeast1Bit(x) == 0
  }

  /** The greatest power of two that is at most x. */
  function Top(x: nat): nat {
    if x < 2 then x else 2 * Top(x / 2)
  }

  lemma {:induction false} TopMeaning(x: nat)
    requires x > 0
    ensures 0 < Top(x) <= x < 2 * Top(x)
    ensures exists k: nat :: Top(x) == Power2(k) && k <= x
  {
    if x < 2 {
      assert Top(x) == Power2(0);
    } else {
      TopMeaning(x / 2);
      var k: nat :| Top(x / 2) == Power2(k) && k <= x / 2;
      assert Top(x) == Power2(k + 1);
    }
  }

  /** The bits of x below the lowest one that is on, and that one, turned off. */
  function LessLowest(x: nat): nat
    requires x > 0
  {
    if x % 2 == 1 then x - 1 else 2 * LessLowest(x / 2)
  }

  lemma {:induction false} AndSame(x: nat, n: nat)
    requires x < Power2(n)
    ensures Bitwise((a, b) => a && b, x, x, n) == x
  {
    if n > 0 {
      AndSame(x / 2, n - 1);
    }
  }

  lemma {:induction false} AndPredecessor(x: nat, n: nat)
    requires 0 < x < Power2(n)
    ensures Bitwise((a, b) => a && b, x, x - 1, n) == LessLowest(x)
  {
    if x % 2 == 1 {
      AndSame(x / 2, n - 1);
    } else {
      AndPredecessor(x / 2, n - 1);
    }
  }

  lemma TurnOffIs(x: Word)
    requires x > 0
    ensures TurnOffLeast1Bit(x) == LessLowest(x)
  {
    MaskOfWord();
    AndPredecessor(x, WORD_BITS);
  }

  lemma {:induction false} LowestKeepsTop(x: nat)
    requires x > 0
    ensures LessLowest(x) < x
    ensures LessLowest(x) == 0 ==> Top(x) == x
    ensures LessLowest(x) > 0 ==> Top(LessLowest(x)) == Top(x) && Top(x) < x
  {
    if x % 2 == 0 {
      LowestKeepsTop(x / 2);
      var y := LessLowest(x / 2);
      if y > 0 {
        assert 2 * y / 2 == y;
      }
    } else if x > 1 {
      assert (x - 1) / 2 == x / 2;
      TopMeaning(x);
    }
  }

  /** The bucket count that rehash aims at. */
  function BestBucketCnt(elemCnt: nat): nat {
    Top(if elemCnt / 2 < 4 then 4 else elemCnt / 2)
  }

  /** From 8 elements on, the ideal number of buckets gives 2 to 4 elements a
      bucket, 4 excluded. */
  lemma IdealLoad(elemCnt: nat)
    ensures BestBucketCnt(elemCnt) >= 4
    ensures elemCnt >= 8 ==> 2 * BestBucketCnt(elemCnt) <= elemCnt < 4 * BestBucketCnt(elemCnt)
    ensures elemCnt < 8 ==> BestBucketCnt(elemCnt) == 4
  {
    TopMeaning(if elemCnt / 2 < 4 then 4 else elemCnt / 2);
    assert Top(4) == 4;
    assert elemCnt >= 8 ==> BestBucketCnt(elemCnt) == Top(elemCnt / 2);
    TopGrows(4, if elemCnt / 2 < 4 then 4 else elemCnt / 2);
  }

  lemma {:induction false} TopGrows(x: nat, y: nat)
    requires x <= y
    ensures Top(x) <= Top(y)
  {
    if x >= 2 {
      TopGrows(x / 2, y / 2);
    } else if y >= 2 {
      TopMeaning(y);
    }
  }

  /** The loop at the beginning of rehash. */
  method ComputeBucketCnt(elemCnt: nat) returns (newBucketCnt: nat)
    requires elemCnt < TWO32
    ensures newBucketCnt == BestBucketCnt(elemCnt)
  {
    newBucketCnt := elemCnt / 2;
    if newBucketCnt < 4 {
      newBucketCnt := 4;
    }
    while !IsPowerOf2(newBucketCnt)
      invariant 0 < newBucketCnt < TWO32 && Top(newBucketCnt) == BestBucketCnt(elemCnt)
      decreases newBucketCnt
    {
      TurnOffIs(newBucketCnt);
      LowestKeepsTop(newBucketCnt);
      newBucketCnt := TurnOffLeast1Bit(newBucketCnt);
    }
    TurnOffIs(newBucketCnt);
    LowestKeepsTop(newBucketCnt);
  }

  // ------------------------------------------------------------- contents

  /** The elements of the first n buckets, bucket after bucket. */
  function Flat<T>(buckets: seq<seq<T>>, n: nat): seq<T>
    requires n <= |buckets|
  {
    if n == 0 then [] else Flat(buckets, n - 1) + buckets[n - 1]
  }

  function Contents<T>(buckets: seq<seq<T>>, n: nat): multiset<T>
    requires n <= |buckets|
  {
    if n == 0 then multiset{} else Contents(buckets, n - 1) + multiset(buckets[n - 1])
  }

  lemma {:induction false} FlatContents<T>(buckets: seq<seq<T>>, n: nat)
    requires n <= |buckets|
    ensures multiset(Flat(buckets, n)) == Contents(buckets, n)
  {
    if n > 0 {
      FlatContents(buckets, n - 1);
    }
  }

  lemma {:induction false} FlatPrefix<T>(buckets: seq<seq<T>>, n: nat, m: nat)
    requires n <= m <= |buckets|
    ensures |Flat(buckets, n)| <= |Flat(buckets, m)|
    ensures Flat(buckets, m)[..|Flat(buckets, n)|] == Flat(buckets, n)
  {
    if n < m {
      FlatPrefix(buckets, n, m - 1);
    }
  }

  /** Element p of bucket b comes at its place in the order. */
  lemma FlatAt<T>(buckets: seq<seq<T>>, b: nat, p: nat)
    requires b < |buckets| && p < |buckets[b]|
    ensures |Flat(buckets, b)| + p < |Flat(buckets, |buckets|)|
    ensures Flat(buckets, |buckets|)[|Flat(buckets, b)| + p] == buckets[b][p]
  {
    FlatPrefix(buckets, b + 1, |buckets|);
    var all, some := Flat(buckets, |buckets|), Flat(buckets, b + 1);
    assert some[|Flat(buckets, b)| + p] == buckets[b][p];
    assert all[..|some|][|Flat(buckets, b)| + p] == all[|Flat(buckets, b)| + p];
  }

  lemma {:induction false} ContentsMember<T>(buckets: seq<seq<T>>, n: nat, x: T)
    requires n <= |buckets|
    ensures x in Contents(buckets, n) <==> exists i :: 0 <= i < n && x in buckets[i]
  {
    if n > 0 {
      ContentsMember(buckets, n - 1, x);
      assert x in multiset(buckets[n - 1]) <==> x in buckets[n - 1];
    }
  }

  /** Replacing one bucket. */
  lemma {:induction false} ContentsOneBucket<T>(buckets: seq<seq<T>>, n: nat, i: nat, bucket: seq<T>)
    requires n <= |buckets| && i < |buckets|
    ensures i >= n ==> Contents(buckets[i := bucket], n) == Contents(buckets, n)
    ensures i < n ==> Contents(buckets[i := bucket], n) + multiset(buckets[i]) == Contents(buckets, n) + multiset(bucket)
  {
    if n > 0 {
      ContentsOneBucket(buckets, n - 1, i, bucket);
      var c, c' := Contents(buckets, n - 1), Contents(buckets[i := bucket], n - 1);
      if i == n - 1 {
        Exchange(c, multiset(bucket), multiset(buckets[i]));
      } else if i < n - 1 {
        Exchange(c, multiset(bucket), multiset(buckets[n - 1]));
        Exchange(c', multiset(buckets[i]), multiset(buckets[n - 1]));
      }
    }
  }

  lemma Exchange<T>(a: multiset<T>, b: multiset<T>, c: multiset<T>)
    ensures a + b + c == a + c + b
  {
  }

  /** A bucket with one element more, or less. */
  lemma ContentsOneElement<T>(buckets: seq<seq<T>>, i: nat, bucket: seq<T>, e: T)
    requires i < |buckets|
    ensures multiset(bucket) == multiset(buckets[i]) + multiset{e} ==>
      Contents(buckets[i := bucket], |buckets|) == Contents(buckets, |buckets|) + multiset{e}
    ensures multiset(bucket) + multiset{e} == multiset(buckets[i]) ==>
      Contents(buckets[i := bucket], |buckets|) + multiset{e} == Contents(buckets, |buckets|)
  {
    ContentsOneBucket(buckets, |buckets|, i, bucket);
    var c, c' := Contents(buckets, |buckets|), Contents(buckets[i := bucket], |buckets|);
    if multiset(bucket) == multiset(buckets[i]) + multiset{e} {
      Cancel(c', c + multiset{e}, multiset(buckets[i]));
    } else if multiset(bucket) + multiset{e} == multiset(buckets[i]) {
      Cancel(c' + multiset{e}, c, multiset(bucket));
    }
  }

  lemma Cancel<T>(a: multiset<T>, b: multiset<T>, c: multiset<T>)
    requires a + c == b + c
    ensures a == b
  {
    forall x ensures a[x] == b[x] {
      assert (a + c)[x] == (b + c)[x];
    }
  }

  // ------------------------------------------------------------- the table

  /** Neither is less than the other. */
  predicate Same<T>(x: T, y: T, less: (T, T) -> bool) {
    !less(x, y) && !less(y, x)
  }

  /** What the caller's functions promise: sameness is an equivalence and the
      same elements hash to the same value. */
  ghost predicate Lawful<T(!new)>(hash: T -> Word, less: (T, T) -> bool) {
    && (forall x :: Same(x, x, less))
    && (forall x, y, z :: Same(x, y, less) && Same(y, z, less) ==> Same(x, z, less))
    && (forall x, y :: Same(x, y, less) ==> hash(x) == hash(y))
  }

  /** The number of the bucket that x belongs in, of n. */
  function BucketIdx<T>(x: T, n: Word, hash: T -> Word): Word
    requires n > 0
  {
    And(hash(x), n - 1)
  }

  predicate PowerOf2(n: nat) {
    exists k: nat :: k < WORD_BITS && n == Power2(k)
  }

  lemma BucketInRange<T>(x: T, n: Word, hash: T -> Word)
    requires PowerOf2(n) && n > 0
    ensures BucketIdx(x, n, hash) < n && BucketIdx(x, n, hash) == hash(x) % n
  {
    var k: nat :| k < WORD_BITS && n == Power2(k);
    AndIsRemainder(hash(x), k);
  }

  lemma PowerFits(n: nat)
    requires PowerOf2(n)
    ensures 0 < n < TWO32
  {
    var k: nat :| k < WORD_BITS && n == Power2(k);
    MaskGrows(k, WORD_BITS);
    MaskOfWord();
  }

  lemma BestIsPowerOf2(elemCnt: nat)
    requires elemCnt < TWO32
    ensures PowerOf2(BestBucketCnt(elemCnt))
  {
    var x := if elemCnt / 2 < 4 then 4 else elemCnt / 2;
    TopMeaning(x);
    var k: nat :| Top(x) == Power2(k) && k <= x;
    MaskOfWord();
    if k >= WORD_BITS {
      if k > WORD_BITS {
        MaskGrows(WORD_BITS, k);
      }
    }
  }

  /** Every element is in the bucket it belongs in. */
  ghost predicate Placed<T>(buckets: seq<seq<T>>, hash: T -> Word)
    requires 0 < |buckets| < TWO32
  {
    forall i, x :: 0 <= i < |buckets| && x in buckets[i] ==> BucketIdx(x, |buckets|, hash) == i
  }

  /** No element is there twice, and no two are the same. */
  ghost predicate Distinct<T>(all: multiset<T>, less: (T, T) -> bool) {
    && (forall x :: x in all ==> all[x] == 1)
    && forall x, y :: x in all && y in all && Same(x, y, less) ==> x == y
  }

  /** An element that is the same as e can only be in the bucket of e. */
  lemma SameBucket<T(!new)>(buckets: seq<seq<T>>, e: T, x: T, hash: T -> Word, less: (T, T) -> bool)
    requires Lawful(hash, less) && 0 < |buckets| < TWO32 && Placed(buckets, hash)
    requires x in Contents(buckets, |buckets|) && Same(x, e, less)
    ensures BucketIdx(e, |buckets|, hash) < |buckets| && x in buckets[BucketIdx(e, |buckets|, hash)]
  {
    SameHash(x, e, hash, less);
    hide Lawful;
    ContentsMember(buckets, |buckets|, x);
    var i :| 0 <= i < |buckets| && x in buckets[i];
    assert BucketIdx(x, |buckets|, hash) == i;
  }

  lemma SameHash<T(!new)>(x: T, y: T, hash: T -> Word, less: (T, T) -> bool)
    requires Lawful(hash, less) && Same(x, y, less)
    ensures hash(x) == hash(y)
  {
  }

  class HashTable<T(==, !new)> {
    const hash: T -> Word
    const less: (T, T) -> bool
    const memory: bool        // malloc in rehash never fails
    var elemCnt: nat
    var buckets: seq<seq<T>>

    ghost function All(): multiset<T>
      reads this
    {
      Contents(buckets, |buckets|)
    }

    /** The table has the number of buckets that rehash aims at. */
    predicate IdeallySized()
      reads this
    {
      |buckets| == BestBucketCnt(elemCnt)
    }

    ghost predicate Shape()
      reads this
    {
      Lawful(hash, less) && PowerOf2(|buckets|) && 0 < |buckets| < TWO32 && Placed(buckets, hash)
    }

    ghost predicate Valid()
      reads this
    {
      Shape() && elemCnt == |All()| && Distinct(All(), less)
    }

    /** hash_init, when there is memory. */
    constructor (hash: T -> Word, less: (T, T) -> bool, memory: bool)
      requires Lawful(hash, less)
      ensures Valid() && All() == multiset{} && this.hash == hash && this.less == less && this.memory == memory
      ensures IdeallySized()
    {
      this.hash, this.less, this.memory := hash, less, memory;
      elemCnt := 0;
      buckets := [[], [], [], []];
      new;
      assert 4 == Power2(2);
      assert All() == multiset{};
    }

    /** find_bucket */
    method FindBucket(e: T) returns (i: nat)
      requires Shape()
      ensures i < |buckets| && i == BucketIdx(e, |buckets|, hash)
    {
      i := And(hash(e), |buckets| - 1);
      BucketInRange(e, |buckets|, hash);
    }

    /** find_elem */
    method FindElem(b: nat, e: T) returns (r: Option<T>)
      requires b < |buckets|
      ensures r.Some? ==> r.value in buckets[b] && Same(r.value, e, less)
      ensures r.None? ==> forall x :: x in buckets[b] ==> !Same(x, e, less)
    {
      var i := 0;
      while i < |buckets[b]|
        invariant i <= |buckets[b]|
        invariant forall j :: 0 <= j < i ==> !Same(buckets[b][j], e, less)
      {
        var hi := buckets[b][i];
        if !less(hi, e) && !less(e, hi) {
          return Some(hi);
        }
        i := i + 1;
      }
      r := None;
    }

    /** hash_find */
    method Find(e: T) returns (r: Option<T>)
      requires Valid()
      ensures r.Some? ==> r.value in All() && Same(r.value, e, less)
      ensures r.None? ==> forall x :: x in All() ==> !Same(x, e, less)
    {
      var b := FindBucket(e);
      r := FindElem(b, e);
      SearchedEnough(buckets, b, e, r, hash, less);
    }

    /** insert_elem */
    method InsertElem(b: nat, e: T)
      requires Shape() && b == BucketIdx(e, |buckets|, hash) && b < |buckets|
      modifies this
      ensures Shape() && elemCnt == old(elemCnt) + 1 && All() == old(All()) + multiset{e} && |buckets| == |old(buckets)|
    {
      hide Lawful;
      ContentsOneElement(buckets, b, [e] + buckets[b], e);
      elemCnt := elemCnt + 1;
      buckets := buckets[b := [e] + buckets[b]];
    }

    /** remove_elem */
    method RemoveElem(b: nat, e: T)
      requires Shape() && b < |buckets| && e in buckets[b] && elemCnt > 0
      modifies this
      ensures Shape() && elemCnt == old(elemCnt) - 1 && All() == old(All()) - multiset{e} && |buckets| == |old(buckets)|
    {
      hide Lawful;
      WithoutMultiset(buckets[b], e);
      ContentsOneElement(buckets, b, Without(buckets[b], e), e);
      elemCnt := elemCnt - 1;
      buckets := buckets[b := Without(buckets[b], e)];
    }

    /** rehash: the same elements whether or not there is memory for the new
        buckets; with it, the ideal number of buckets. */
    method Rehash() returns (ok: bool)
      requires Valid() && elemCnt < TWO32
      modifies `buckets
      ensures Valid() && All() == old(All())
      ensures if ok then IdeallySized() else buckets == old(buckets)
      ensures memory ==> ok
    {
      hide Lawful, Distinct;
      var newBucketCnt := ComputeBucketCnt(elemCnt);
      if newBucketCnt == |buckets| {
        return true;
      }
      ok := *;
      ok := ok || memory;
      if !ok {
        return;
      }
      BestIsPowerOf2(elemCnt);
      PowerFits(newBucketCnt);
      var oldBuckets := buckets;
      buckets := seq(newBucketCnt, _ => []);
      NoContents<T>(newBucketCnt, newBucketCnt);
      var i := 0;
      while i < |oldBuckets|
        invariant i <= |oldBuckets| && Shape() && |buckets| == newBucketCnt
        invariant All() == Contents(oldBuckets, i)
      {
        MoveBucket(oldBuckets[i]);
        i := i + 1;
      }
    }

    /** The elements of an old bucket move to the buckets they belong in now. */
    method MoveBucket(list: seq<T>)
      requires Shape()
      modifies `buckets
      ensures Shape() && All() == old(All()) + multiset(list) && |buckets| == |old(buckets)|
    {
      hide Lawful, PowerOf2, Contents;
      var j := 0;
      while j < |list|
        invariant j <= |list| && Shape() && |buckets| == |old(buckets)|
        invariant All() == old(All()) + multiset(list[..j])
      {
        var e := list[j];
        var b := FindBucket(e);
        ContentsOneElement(buckets, b, [e] + buckets[b], e);
        buckets := buckets[b := [e] + buckets[b]];
        assert list[..j + 1] == list[..j] + [e];
        j := j + 1;
      }
      assert list[..j] == list;
    }

    /** hash_insert: an element that is the same as an old one is not inserted. */
    method Insert(e: T) returns (r: Option<T>)
      requires Valid() && elemCnt < TWO32 - 1
      modifies this
      ensures Valid()
      ensures r.Some? ==> r.value in old(All()) && Same(r.value, e, less) && All() == old(All())
      ensures r.None? ==> (forall x :: x in old(All()) ==> !Same(x, e, less)) && All() == old(All()) + multiset{e}
      ensures memory ==> IdeallySized()
    {
      var b := FindBucket(e);
      r := FindElem(b, e);
      SearchedEnough(buckets, b, e, r, hash, less);
      if r.None? {
        assert Same(e, e, less);
        OneMoreDistinct(All(), e, less);
        InsertElem(b, e);
      }
      var ok := Rehash();
    }

    /** hash_replace: an old element that is the same gives way. */
    method Replace(e: T) returns (r: Option<T>)
      requires Valid() && elemCnt < TWO32 - 1
      modifies this
      ensures Valid()
      ensures r.Some? ==> r.value in old(All()) && Same(r.value, e, less)
      ensures r.Some? ==> All() == old(All()) - multiset{r.value} + multiset{e}
      ensures r.None? ==> (forall x :: x in old(All()) ==> !Same(x, e, less)) && All() == old(All()) + multiset{e}
      ensures memory ==> IdeallySized()
    {
      var b := FindBucket(e);
      r := FindElem(b, e);
      SearchedEnough(buckets, b, e, r, hash, less);
      if r.Some? {
        OneLessDistinct(All(), r.value, less);
        NoOtherSame(All(), r.value, e, hash, less);
        RemoveElem(b, r.value);
      }
      assert Same(e, e, less);
      OneMoreDistinct(All(), e, less);
      InsertElem(b, e);
      var ok := Rehash();
    }

    /** hash_delete */
    method Delete(e: T) returns (r: Option<T>)
      requires Valid() && elemCnt < TWO32
      modifies this
      ensures Valid()
      ensures r.Some? ==> r.value in old(All()) && Same(r.value, e, less) && All() == old(All()) - multiset{r.value}
      ensures r.None? ==> (forall x :: x in old(All()) ==> !Same(x, e, less)) && buckets == old(buckets)
      ensures memory && old(IdeallySized()) ==> IdeallySized()
    {
      var b := FindBucket(e);
      r := FindElem(b, e);
      SearchedEnough(buckets, b, e, r, hash, less);
      if r.Some? {
        OneLessDistinct(All(), r.value, less);
        RemoveElem(b, r.value);
        var ok := Rehash();
      }
    }
  }

  lemma {:induction false} NoContents<T>(n: nat, m: nat)
    requires n <= m
    ensures Contents(seq<seq<T>>(m, _ => []), n) == multiset{}
  {
    if n > 0 {
      NoContents<T>(n - 1, m);
    }
  }

  /** Searching one bucket is searching the table. */
  lemma SearchedEnough<T(!new)>(buckets: seq<seq<T>>, b: nat, e: T, r: Option<T>, hash: T -> Word, less: (T, T) -> bool)
    requires Lawful(hash, less) && 0 < |buckets| < TWO32 && Placed(buckets, hash)
    requires b < |buckets| && b == BucketIdx(e, |buckets|, hash)
    requires r.Some? ==> r.value in buckets[b] && Same(r.value, e, less)
    requires r.None? ==> forall x :: x in buckets[b] ==> !Same(x, e, less)
    ensures r.Some? ==> r.value in Contents(buckets, |buckets|)
    ensures r.None? ==> forall x :: x in Contents(buckets, |buckets|) ==> !Same(x, e, less)
  {
    if r.Some? {
      ContentsMember(buckets, |buckets|, r.value);
    } else {
      forall x | x in Contents(buckets, |buckets|) ensures !Same(x, e, less) {
        if Same(x, e, less) {
          SameBucket(buckets, e, x, hash, less);
        }
      }
    }
  }

  lemma OneMoreDistinct<T>(all: multiset<T>, e: T, less: (T, T) -> bool)
    requires Distinct(all, less) && e !in all && forall x :: x in all ==> !Same(x, e, less)
    ensures Distinct(all + multiset{e}, less)
  {
  }

  lemma OneLessDistinct<T>(all: multiset<T>, e: T, less: (T, T) -> bool)
    requires Distinct(all, less) && e in all
    ensures Distinct(all - multiset{e}, less) && e !in all - multiset{e} && |all| > 0
  {
  }

  lemma NoOtherSame<T(!new)>(all: multiset<T>, y: T, e: T, hash: T -> Word, less: (T, T) -> bool)
    requires Lawful(hash, less) && Distinct(all, less) && y in all && Same(y, e, less)
    ensures forall x :: x in all - multiset{y} ==> !Same(x, e, less)
  {
    forall x | x in all - multiset{y} ensures !Same(x, e, less) {
      assert Same(x, e, less) && Same(e, y, less) ==> Same(x, y, less);
    }
  }

  // ------------------------------------------------------------- iteration

  /** struct hash_iterator: element pos of bucket number bucket, -1 for the head
      of its list, or None when there is no current element any more. */
  class HashIterator<T(==, !new)> {
    const table: HashTable<T>
    var bucket: nat
    var pos: Option<int>
    ghost var visited: nat

    /** The elements in the order in which the iterator comes by them. */
    ghost function Order(): seq<T>
      reads table
    {
      Flat(table.buckets, |table.buckets|)
    }

    /** The iterator is at element number visited - 1 of that order. */
    ghost predicate Valid()
      reads this, table
    {
      && pos.Some? && bucket < |table.buckets| && -1 <= pos.value < |table.buckets[bucket]|
      && visited == |Flat(table.buckets, bucket)| + (pos.value + 1)
    }

    /** hash_first */
    constructor (h: HashTable<T>)
      requires h.Valid()
      ensures Valid() && table == h && visited == 0
    {
      table := h;
      bucket := 0;
      pos := Some(-1);
      visited := 0;
    }

    /** hash_next: the next element of the order, a null pointer after the last. */
    method Next() returns (r: Option<T>)
      requires Valid() && table.Valid()
      modifies this
      ensures old(visited) <= |Order()|
      ensures if old(visited) < |Order()|
        then Valid() && visited == old(visited) + 1 && r == Some(Order()[old(visited)])
        else r == None && pos == None
    {
      hide Lawful, Distinct, Placed;
      ghost var buckets := table.buckets;
      FlatPrefix(buckets, bucket + 1, |buckets|);
      pos := Some(pos.value + 1);
      while pos.value == |table.buckets[bucket]|
        invariant pos.Some? && bucket < |buckets| && 0 <= pos.value <= |buckets[bucket]|
        invariant visited == old(visited) == |Flat(buckets, bucket)| + pos.value <= |Order()|
        decreases |buckets| - bucket
      {
        bucket := bucket + 1;
        if bucket >= |table.buckets| {
          pos := None;
          return None;
        }
        pos := Some(0);
        FlatPrefix(buckets, bucket, |buckets|);
      }
      FlatAt(buckets, bucket, pos.value);
      visited := visited + 1;
      r := Some(table.buckets[bucket][pos.value]);
    }
  }

  /** Every element of the table occurs in the order of iteration, just once. */
  lemma OrderVisitsEachOnce<T>(buckets: seq<seq<T>>, less: (T, T) -> bool)
    requires Distinct(Contents(buckets, |buckets|), less)
    ensures multiset(Flat(buckets, |buckets|)) == Contents(buckets, |buckets|)
    ensures NoDup(Flat(buckets, |buckets|))
  {
    FlatContents(buckets, |buckets|);
    var order := Flat(buckets, |buckets|);
    forall i, j | 0 <= i < j < |order| ensures order[i] != order[j] {
      if order[i] == order[j] {
        TwiceInMultiset(order, i, j);
      }
    }
  }

  lemma TwiceInMultiset<T>(s: seq<T>, i: nat, j: nat)
    requires i < j < |s| && s[i] == s[j]
    ensures multiset(s)[s[i]] >= 2
  {
    var x := s[i];
    assert s == s[..j] + [x] + s[j + 1..];
    assert s[..j][i] == x;
    assert multiset(s[..j])[x] >= 1;
  }
}
