/**
 The page allocator of threads/palloc.c: two pools of pages, each with a
 bitmap of its used pages.  A page is named by its page number.
 */
module Palloc {
  import opened Bitmap
  import opened Common

  function DivRoundUp(x: nat, step: nat): (q: nat)
    requires step > 0
    ensures step * q >= x && step * q < x + step
  {
    var q := (x + step - 1) / step;
    assert x + step - 1 == step * q + (x + step - 1) % step;
    q
  }

  /** bitmap_buf_size: struct bitmap is two words. */
  function BitmapBufSize(bitCnt: nat): nat {
    8 + 4 * ElemCnt(bitCnt)
  }

  class Pool {
    const base: nat        // page number of the first page
    const usedMap: Bitmap

    ghost predicate Valid() {
      usedMap.Valid()
    }

    /** page_from_pool */
    predicate Owns(page: nat) {
      base <= page < base + usedMap.bitCnt
    }

    /** The pages in use. */
    ghost function Used(): (r: set<nat>)
      requires Valid()
      reads usedMap.bits
      ensures forall p :: p in r ==> Owns(p)
    {
      OnesFrom(base, usedMap.View())
    }

    /** A run of pages of this pool, none of them used. */
    ghost predicate FreeRun(used: set<nat>, p: nat, cnt: nat) {
      base <= p && p + cnt <= base + usedMap.bitCnt && used !! Run(p, cnt)
    }

    /** The pool and its bitmap take exactly pageCnt pages from start on: the fewest
        that hold the two words of struct bitmap and a bit for each of pageCnt pages,
        and then the pool. */
    ghost predicate Takes(start: nat, pageCnt: nat) {
      var bytes := 8 + 4 * ((pageCnt + 31) / 32);
      && start <= base && base + usedMap.bitCnt == start + pageCnt
      && (base - start) * PGSIZE >= bytes && (base - start - 1) * PGSIZE < bytes
    }

    /** init_pool, given a start and pageCnt pages of which the bitmap takes
        the first few; too few pages for the bitmap is a panic.  The bitmap
        fits in the pages below the pool. */
    constructor (start: nat, pageCnt: nat)
      requires DivRoundUp(BitmapBufSize(pageCnt), PGSIZE) <= pageCnt
      ensures Valid() && fresh(usedMap) && fresh(usedMap.bits) && Used() == {}
      ensures forall p: nat :: Owns(p) ==> start <= p < start + pageCnt
      ensures Takes(start, pageCnt) && (base - start) * PGSIZE >= 8 + 4 * usedMap.bits.Length
    {
      var bmPages := DivRoundUp(BitmapBufSize(pageCnt), PGSIZE);
      usedMap := new Bitmap(pageCnt - bmPages);
      base := start + bmPages;
    }

    /** palloc_get_multiple: the lowest free run of pages, if there is one. */
    method Get(pageCnt: nat) returns (r: Option<nat>)
      requires Valid()
      modifies usedMap.bits
      ensures r.None? <==> pageCnt == 0 || forall p :: !FreeRun(old(Used()), p, pageCnt)
      ensures r.Some? ==> FreeRun(old(Used()), r.value, pageCnt)
      ensures r.Some? ==> forall p :: FreeRun(old(Used()), p, pageCnt) ==> r.value <= p
      ensures Used() == old(Used()) + if r.Some? then Run(r.value, pageCnt) else {}
    {
      if pageCnt == 0 {
        return None;
      }
      ghost var before := usedMap.View();
      var pageIdx := usedMap.ScanAndFlip(0, pageCnt, false);
      if pageIdx.Some? {
        FillIsUnion(base, before, pageIdx.value, pageCnt);
        r := Some(base + pageIdx.value);
      } else {
        r := None;
      }
      FirstRunIsLowest(before, pageCnt, pageIdx);
      ghost var used := old(Used());
      assert used == OnesFrom(base, before);
      assert r.Some? ==> FreeRun(used, r.value, pageCnt);
    }

    /** The first run of clear bits is the lowest free run of pages. */
    lemma FirstRunIsLowest(bits: seq<bool>, cnt: nat, idx: Option<nat>)
      requires |bits| == usedMap.bitCnt && IsFirstRun(bits, 0, cnt, false, idx)
      ensures idx.Some? ==> FreeRun(OnesFrom(base, bits), base + idx.value, cnt)
      ensures forall p: nat :: FreeRun(OnesFrom(base, bits), p, cnt) ==> idx.Some? && base + idx.value <= p
    {
      if idx.Some? {
        UniformMeans(base, bits, idx.value, cnt);
      }
      forall p: nat | FreeRun(OnesFrom(base, bits), p, cnt) ensures idx.Some? && base + idx.value <= p {
        UniformMeans(base, bits, p - base, cnt);
      }
    }

    /** palloc_free_multiple, of pages of this pool; its assertion is that all
        of them are in use. */
    method Free(page: nat, pageCnt: nat)
      requires Valid() && Run(page, pageCnt) <= Used()
      modifies usedMap.bits
      ensures Used() == old(Used()) - Run(page, pageCnt)
    {
      if pageCnt == 0 {
        return;
      }
      assert page in Run(page, pageCnt) && page + pageCnt - 1 in Run(page, pageCnt);
      FillIsUnion(base, usedMap.View(), page - base, pageCnt);
      usedMap.SetMultiple(page - base, pageCnt, false);
    }
  }

  /** The kernel pool and the user pool. */
  class PageAllocator {
    const kernelPool: Pool
    const userPool: Pool

    ghost predicate Valid() {
      && kernelPool.Valid() && userPool.Valid()
      && kernelPool.usedMap.bits != userPool.usedMap.bits
      && forall p :: !(kernelPool.Owns(p) && userPool.Owns(p))
    }

    /** The pages in use in either pool. */
    ghost function Used(): set<nat>
      requires Valid()
      reads kernelPool.usedMap.bits, userPool.usedMap.bits
    {
      kernelPool.Used() + userPool.Used()
    }

    /** palloc_init: memory from freeStart to freeEnd, half of it but no more
        than userPageLimit pages for the user pool and its bitmap, at the end, and all
        the rest for the kernel pool and its bitmap. */
    constructor (freeStart: nat, freeEnd: nat, userPageLimit: nat)
      requires freeStart <= freeEnd
      requires var freePages := freeEnd - freeStart;
        var userPages := if freePages / 2 > userPageLimit then userPageLimit else freePages / 2;
        && DivRoundUp(BitmapBufSize(userPages), PGSIZE) <= userPages
        && DivRoundUp(BitmapBufSize(freePages - userPages), PGSIZE) <= freePages - userPages
      ensures Valid() && Used() == {}
      ensures forall p: nat :: kernelPool.Owns(p) || userPool.Owns(p) ==> freeStart <= p < freeEnd
      ensures var userPages := Least((freeEnd - freeStart) / 2, userPageLimit);
        kernelPool.Takes(freeStart, freeEnd - userPages - freeStart) && userPool.Takes(freeEnd - userPages, userPages)
      ensures fresh(kernelPool.usedMap.bits) && fresh(userPool.usedMap.bits)
    {
      hide Pool.Takes, DivRoundUp, BitmapBufSize;
      var freePages := freeEnd - freeStart;
      var userPages := freePages / 2;
      if userPages > userPageLimit {
        userPages := userPageLimit;
      }
      var kernelPages := freePages - userPages;
      kernelPool := new Pool(freeStart, kernelPages);
      userPool := new Pool(freeStart + kernelPages, userPages);
    }

    /** Run for the kernel or, with PAL_USER, for a user process: never a
        page handed out before and not yet freed. */
    method GetMultiple(user: bool, pageCnt: nat) returns (r: Option<nat>)
      requires Valid()
      modifies kernelPool.usedMap.bits, userPool.usedMap.bits
      ensures var pool := if user then userPool else kernelPool;
        && (r.None? <==> pageCnt == 0 || forall p :: !pool.FreeRun(old(Used()), p, pageCnt))
        && (r.Some? ==> pool.FreeRun(old(Used()), r.value, pageCnt))
        && (r.Some? ==> forall p :: pool.FreeRun(old(Used()), p, pageCnt) ==> r.value <= p)
      ensures Used() == old(Used()) + if r.Some? then Run(r.value, pageCnt) else {}
    {
      var pool := if user then userPool else kernelPool;
      ghost var mine := pool.Used();
      forall p: nat ensures pool.FreeRun(mine, p, pageCnt) <==> pool.FreeRun(Used(), p, pageCnt) {
        if pool.FreeRun(mine, p, pageCnt) {
          OtherPoolAway(pool, p, pageCnt);
        }
      }
      r := pool.Get(pageCnt);
    }

    lemma OtherPoolAway(pool: Pool, p: nat, cnt: nat)
      requires Valid() && (pool == kernelPool || pool == userPool)
      requires pool.FreeRun(pool.Used(), p, cnt)
      ensures pool.FreeRun(Used(), p, cnt)
    {
      forall q | q in Run(p, cnt) ensures q !in Used() {
        assert pool.Owns(q);
      }
    }

    /** palloc_free_multiple: the pool is found from the page. */
    method FreeMultiple(page: nat, pageCnt: nat)
      requires Valid()
      requires Run(page, pageCnt) <= kernelPool.Used() || Run(page, pageCnt) <= userPool.Used()
      modifies kernelPool.usedMap.bits, userPool.usedMap.bits
      ensures Used() == old(Used()) - Run(page, pageCnt)
    {
      if pageCnt == 0 {
        return;
      }
      assert page in Run(page, pageCnt);
      var pool := if kernelPool.Owns(page) then kernelPool else userPool;
      ghost var other := if kernelPool.Owns(page) then userPool else kernelPool;
      forall q | q in Run(page, pageCnt) ensures q !in other.Used() {
        assert pool.Owns(q);
      }
      pool.Free(page, pageCnt);
    }
  }
}
