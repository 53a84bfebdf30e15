/**
 The block allocator of threads/malloc.c on top of the kernel page pool.
 `HeapModel` has its state as a value; class `Heap` has the fields and the
 bytes of memory, and its methods change them as the C functions do.
 */
module Malloc {
  import opened Bitmap
  import opened Common
  import opened HeapModel
  import opened Palloc

  /** DIV_ROUND_UP (size + sizeof *a, PGSIZE) in 32-bit arithmetic. */
  function BigPages(size: nat): nat {
    (size + HEADER + PGSIZE - 1) % TWO32 / PGSIZE
  }

  /** The sum in BigPages does not wrap around. */
  predicate Fits(size: nat) {
    size <= BlockSize(DESC_CNT - 1) || size + HEADER + PGSIZE - 1 < TWO32
  }

  /** The pages of a big block hold the request exactly when nothing wraps. */
  lemma BigPagesSufficeExactlyWithoutWrap(size: nat)
    requires BlockSize(DESC_CNT - 1) < size < TWO32
    ensures PGSIZE * BigPages(size) - HEADER >= size <==> Fits(size)
  {
    var sum := (size + HEADER + PGSIZE - 1) % TWO32;
    assert sum == PGSIZE * BigPages(size) + sum % PGSIZE;
  }

  /** An input that shows it: for 2^32 - 1 bytes the sum wraps to 4106, so malloc takes
      one page, and the block on it has 4084 bytes. */
  lemma GreatestSizeWraps()
    ensures BigPages(0xffff_ffff) == 1 && !Fits(0xffff_ffff)
    ensures PGSIZE * BigPages(0xffff_ffff) - HEADER == 4084
  {
  }

  /** For the sizes that wrap malloc asks for no page, and gets none, but for the last
      11, for which it gets one page. */
  lemma WrappingPages(size: nat)
    requires size < TWO32 && !Fits(size)
    ensures BigPages(size) <= 1 && (BigPages(size) == 1 <==> size >= TWO32 - 11)
  {
    var sum := size + HEADER + PGSIZE - 1;
    assert sum % TWO32 == sum - TWO32;
  }

  /** realloc's copy stays inside the new block: nothing wraps, or there is no new
      block, or the old block is no larger than what one page holds. */
  predicate CopyFits(newSize: nat, oldCap: int) {
    Fits(newSize) || BigPages(newSize) == 0 || oldCap <= PGSIZE - HEADER
  }

  /** When malloc gives a block for the new size, the bytes that realloc copies fit in it
      exactly if that holds. */
  lemma CopyStaysInsideExactlyWhen(newSize: nat, oldCap: int, newCap: int)
    requires newSize < TWO32 && (newCap >= newSize <==> Fits(newSize))
    requires newSize > BlockSize(DESC_CNT - 1) ==> newCap == PGSIZE * BigPages(newSize) - HEADER && BigPages(newSize) > 0
    ensures Least(newSize, oldCap) <= newCap <==> CopyFits(newSize, oldCap)
  {
    if !Fits(newSize) {
      WrappingPages(newSize);
    }
  }

  /** An input for which it does not: a block got with malloc (5000), of 8180 bytes, and
      the new size 2^32 - 1.  The copy writes 4096 bytes past the new block. */
  lemma ReallocCanOverrun()
    ensures var oldCap := PGSIZE * BigPages(5000) - HEADER; var newCap := PGSIZE * BigPages(0xffff_ffff) - HEADER;
      !CopyFits(0xffff_ffff, oldCap) && Least(0xffff_ffff, oldCap) - newCap == 4096
  {
    GreatestSizeWraps();
  }

  /** The pages malloc asks palloc for when it needs any. */
  function PagesWanted(size: nat): nat {
    if size <= BlockSize(DESC_CNT - 1) then 1 else BigPages(size)
  }

  /** The smallest blocks that hold size bytes. */
  function ClassOf(size: nat): (d: nat)
    requires size <= BlockSize(DESC_CNT - 1)
    ensures d < DESC_CNT && size <= BlockSize(d) && (d > 0 ==> BlockSize(d - 1) < size)
  {
    if size <= 16 then 0 else if size <= 32 then 1 else if size <= 64 then 2 else if size <= 128 then 3
    else if size <= 256 then 4 else if size <= 512 then 5 else 6
  }

  /** Block a keeps its place, its size and its contents. */
  ghost predicate Keeps(s: Store, s': Store, m: nat -> byte, m': nat -> byte, a: nat) {
    && PageOf(a) in s.arenas && PageOf(a) in s'.arenas && Cap(s', a) == Cap(s, a)
    && forall x: nat :: Within(x, a, Cap(s, a)) ==> m'(x) == m(x)
  }

  ghost predicate KeepsLive(s: Store, s': Store, m: nat -> byte, m': nat -> byte, but: Option<nat>) {
    forall a: nat :: Live(s, a) && but != Some(a) ==> Keeps(s, s', m, m', a)
  }

  /** Every page of every arena is in use. */
  ghost predicate Claimed(arenas: map<nat, Arena>, used: set<nat>) {
    forall p :: p in arenas ==> Run(p, Span(arenas[p])) <= used
  }

  lemma FreeRunUnclaimed(s: Store, used: set<nat>, p: nat, cnt: nat)
    requires WellFormed(s) && Claimed(s.arenas, used) && used !! Run(p, cnt) && cnt > 0
    ensures Unclaimed(s.arenas, p, cnt)
  {
    forall q | q in s.arenas ensures q + Span(s.arenas[q]) <= p || p + cnt <= q {
      assert ArenaOk(s, q);
      var common := if p < q then q else p;
      assert common in Run(q, Span(s.arenas[q])) ==> common in used;
    }
  }

  lemma OthersClaimed(s: Store, used: set<nat>, p: nat)
    requires WellFormed(s) && Claimed(s.arenas, used) && p in s.arenas
    ensures Claimed(s.arenas - {p}, used - Run(p, Span(s.arenas[p])))
  {
    forall q | q in s.arenas - {p}
      ensures Run(q, Span(s.arenas[q])) !! Run(p, Span(s.arenas[p]))
    {
      if q < p {
        assert q + Span(s.arenas[q]) <= p;
      } else {
        assert p + Span(s.arenas[p]) <= q;
      }
    }
  }

  ghost predicate PartOfArena(arenas: map<nat, Arena>, q: nat) {
    exists p :: p in arenas && InRun(q, p, Span(arenas[p]))
  }

  /** The pages in use that belong to other users of the pool. */
  ghost function Others(arenas: map<nat, Arena>, used: set<nat>): set<nat> {
    set q | q in used && !PartOfArena(arenas, q)
  }

  lemma ArenaAddsNoOthers(s: Store, used: set<nat>, p: nat, ar: Arena)
    requires WellFormed(s) && Claimed(s.arenas, used) && Span(ar) > 0 && used !! Run(p, Span(ar))
    ensures Others(s.arenas[p := ar], used + Run(p, Span(ar))) == Others(s.arenas, used)
    ensures Claimed(s.arenas[p := ar], used + Run(p, Span(ar)))
  {
    FreeRunUnclaimed(s, used, p, Span(ar));
    var grown := s.arenas[p := ar];
    forall q: nat ensures PartOfArena(grown, q) <==> PartOfArena(s.arenas, q) || InRun(q, p, Span(ar)) {
      assert p !in s.arenas || ArenaOk(s, p);
      if PartOfArena(s.arenas, q) {
        var o :| o in s.arenas && InRun(q, o, Span(s.arenas[o]));
        assert o in grown && grown[o] == s.arenas[o];
      }
      assert p in grown && grown[p] == ar;
    }
  }

  lemma ArenaLeavesNoOthers(s: Store, used: set<nat>, p: nat)
    requires WellFormed(s) && Claimed(s.arenas, used) && p in s.arenas
    ensures Others(s.arenas - {p}, used - Run(p, Span(s.arenas[p]))) == Others(s.arenas, used)
  {
    var left := s.arenas - {p};
    forall q: nat ensures PartOfArena(s.arenas, q) <==> PartOfArena(left, q) || InRun(q, p, Span(s.arenas[p])) {
      if PartOfArena(s.arenas, q) {
        var o :| o in s.arenas && InRun(q, o, Span(s.arenas[o]));
        assert o != p ==> o in left && left[o] == s.arenas[o];
      }
      if PartOfArena(left, q) {
        var o :| o in left && InRun(q, o, Span(left[o]));
        assert o in s.arenas && s.arenas[o] == left[o];
      }
    }
    forall q | q in Others(left, used) ensures PartOfArena(s.arenas, q) <==> q in Run(p, Span(s.arenas[p])) {
    }
  }

  lemma SpanKeepsOthers(arenas: map<nat, Arena>, arenas': map<nat, Arena>, used: set<nat>)
    requires arenas.Keys == arenas'.Keys && forall p :: p in arenas ==> Span(arenas'[p]) == Span(arenas[p])
    ensures Others(arenas', used) == Others(arenas, used)
  {
    forall q: nat ensures PartOfArena(arenas', q) <==> PartOfArena(arenas, q) {
      if PartOfArena(arenas, q) {
        var o :| o in arenas && InRun(q, o, Span(arenas[o]));
        assert o in arenas' && InRun(q, o, Span(arenas'[o]));
      }
      if PartOfArena(arenas', q) {
        var o :| o in arenas' && InRun(q, o, Span(arenas'[o]));
        assert o in arenas && InRun(q, o, Span(arenas[o]));
      }
    }
  }

  lemma PushKeepsOthers(s: Store, a: nat, d: nat, used: set<nat>)
    requires |s.free| == DESC_CNT && d < DESC_CNT && PageOf(a) in s.arenas && s.arenas[PageOf(a)].desc.Some?
    ensures Others(Push(s, a, d).arenas, used) == Others(s.arenas, used)
  {
    SpanKeepsOthers(s.arenas, Push(s, a, d).arenas, used);
  }

  /** All small arenas but that on page p have a block in use. */
  ghost predicate NoneIdleBut(s: Store, p: nat) {
    forall q :: q in s.arenas && q != p && s.arenas[q].desc.Some? && s.arenas[q].desc.value < DESC_CNT ==>
      s.arenas[q].freeCnt < PerArena(s.arenas[q].desc.value)
  }

  lemma SevenLists(s: Store)
    requires WellFormed(s)
    ensures |s.free| == DESC_CNT
  {
  }

  class Heap {
    const pool: Pool
    const blockSizes: seq<nat>
    const perArena: seq<nat>
    var arenas: map<nat, Arena>
    var free: seq<seq<nat>>
    var mem: nat -> byte

    ghost function View(): Store
      reads this
    {
      Store(arenas, free)
    }

    ghost function OtherPages(): set<nat>
      requires pool.Valid()
      reads this, pool.usedMap.bits
    {
      Others(arenas, pool.Used())
    }

    ghost predicate DescsOk() {
      && pool.Valid()
      && |blockSizes| == |perArena| == DESC_CNT
      && forall d: nat :: d < DESC_CNT ==> blockSizes[d] == BlockSize(d) && perArena[d] == PerArena(d)
    }

    ghost predicate Consistent()
      reads this, pool.usedMap.bits
    {
      DescsOk() && WellFormed(View()) && Claimed(arenas, pool.Used())
    }

    ghost predicate Valid()
      reads this, pool.usedMap.bits
    {
      Consistent() && NoneIdle(View())
    }

    /** malloc_init */
    constructor (kernelPool: Pool)
      requires kernelPool.Valid()
      ensures Valid() && pool == kernelPool && forall a :: !Live(View(), a)
    {
      var sizes: seq<nat>, counts: seq<nat> := [], [];
      var blockSize := 16;
      while blockSize < PGSIZE / 2
        invariant |sizes| == |counts| <= DESC_CNT
        invariant blockSize == if |sizes| < DESC_CNT then BlockSize(|sizes|) else PGSIZE / 2
        invariant forall d: nat :: d < |sizes| ==> sizes[d] == BlockSize(d) && counts[d] == PerArena(d)
        decreases PGSIZE - blockSize
      {
        sizes := sizes + [blockSize];
        counts := counts + [(PGSIZE - HEADER) / blockSize];
        blockSize := blockSize * 2;
      }
      pool := kernelPool;
      blockSizes := sizes;
      perArena := counts;
      arenas := map[];
      free := seq(|sizes|, _ => []);
      mem := _ => 0;
    }

    /** The n bytes at address lo take values this model does not say. */
    method Scribble(lo: nat, n: nat)
      modifies `mem
      ensures forall x: nat :: !Within(x, lo, n) ==> mem(x) == old(mem(x))
    {
      var junk: nat -> int := *;
      var was := mem;
      mem := (x: nat) => if Within(x, lo, n) then junk(x) % 256 else was(x);
    }

    /** The list_elems in the first bytes of free blocks are linked anew. */
    method Relink(blocks: seq<nat>)
      modifies `mem
      ensures forall x: nat :: (forall b :: b in blocks ==> !Within(x, b, 8)) ==> mem(x) == old(mem(x))
    {
      var junk: nat -> int := *;
      var was := mem;
      mem := (x: nat) => if exists b :: b in blocks && Within(x, b, 8) then junk(x) % 256 else was(x);
    }

    /** The descriptor of the smallest blocks that hold size bytes. */
    method FindDesc(size: nat) returns (d: nat)
      requires DescsOk()
      ensures d <= DESC_CNT && (d < DESC_CNT <==> size <= BlockSize(DESC_CNT - 1))
      ensures d < DESC_CNT ==> size <= BlockSize(d) && d == ClassOf(size)
      ensures forall e: nat :: e < d && e < DESC_CNT ==> BlockSize(e) < size
    {
      d := 0;
      while d < |blockSizes|
        invariant 0 <= d <= DESC_CNT
        invariant forall e: nat :: e < d ==> BlockSize(e) < size
      {
        if blockSizes[d] >= size {
          assert BlockSize(d) >= size;
          return;
        }
        assert BlockSize(d) < size;
        d := d + 1;
      }
    }

    /** A big block of whole pages. */
    method MallocBig(size: nat) returns (r: Option<nat>)
      requires Valid() && BlockSize(DESC_CNT - 1) < size < TWO32
      modifies this, pool.usedMap.bits
      ensures Valid()
      ensures forall a: nat :: Live(View(), a) <==> Live(old(View()), a) || r == Some(a)
      ensures r.Some? ==> !Live(old(View()), r.value) && Cap(View(), r.value) == PGSIZE * BigPages(size) - HEADER
      ensures r.None? <==> BigPages(size) == 0 || forall p :: !pool.FreeRun(old(pool.Used()), p, BigPages(size))
      ensures r.None? ==> View() == old(View()) && mem == old(mem)
      ensures OtherPages() == old(OtherPages())
      ensures KeepsLive(old(View()), View(), old(mem), mem, None)
    {
      hide Others, KeepsLive, Claimed, ArenaOk, ListOk, SpansDisjoint;
      ghost var s := View();
      ghost var m := mem;
      var pageCnt := BigPages(size);
      var page := pool.Get(pageCnt);
      if page.None? {
        assert pool.Used() == old(pool.Used());
        SameKeeps(s, m);
        return None;
      }
      var p := page.value;
      FreeRunUnclaimed(s, old(pool.Used()), p, pageCnt);
      NewPage(s, p, pageCnt);
      AddBigWellFormed(s, p, pageCnt);
      ArenaAddsNoOthers(s, old(pool.Used()), p, Arena(None, pageCnt));
      PageOfSum(p, HEADER);
      arenas := arenas[p := Arena(None, pageCnt)];
      assert View() == AddBig(s, p, pageCnt);
      Scribble(p * PGSIZE, HEADER);
      HeaderKeeps(s, View(), m, mem, p);
      r := Some(p * PGSIZE + HEADER);
    }

    /** A new arena, when the free list of descriptor d is empty. */
    method NewArena(d: nat) returns (ok: bool)
      requires Valid() && d < DESC_CNT && free[d] == []
      modifies this, pool.usedMap.bits
      ensures Consistent()
      ensures ok <==> exists p :: pool.FreeRun(old(pool.Used()), p, 1)
      ensures OtherPages() == old(OtherPages())
      ensures !ok ==> View() == old(View()) && mem == old(mem) && pool.Used() == old(pool.Used())
      ensures ok ==> free[d] != [] && NoneIdleBut(View(), PageOf(free[d][0]))
      ensures forall a: nat :: Live(View(), a) <==> Live(old(View()), a)
      ensures KeepsLive(old(View()), View(), old(mem), mem, None)
    {
      hide Others, KeepsLive, Claimed, ArenaOk, ListOk, SpansDisjoint;
      ghost var s := View();
      ghost var m := mem;
      var page := pool.Get(1);
      if page.None? {
        assert pool.Used() == old(pool.Used());
        SameKeeps(s, m);
        return false;
      }
      var p := page.value;
      FreeRunUnclaimed(s, old(pool.Used()), p, 1);
      AddArenaWellFormed(s, p, d);
      ArenaAddsNoOthers(s, old(pool.Used()), p, Arena(Some(d), perArena[d]));
      arenas := arenas[p := Arena(Some(d), perArena[d])];
      var blocks: seq<nat> := [];
      var i := 0;
      while i < perArena[d]
        invariant i <= perArena[d] && blocks == Blocks(p, d, i)
      {
        blocks := blocks + [Addr(p, d, i)];
        i := i + 1;
      }
      free := free[d := free[d] + blocks];
      assert View() == AddArena(s, p, d);
      BlockToArena(p, d, 0);
      Scribble(p * PGSIZE, HEADER);
      HeaderKeeps(s, View(), m, mem, p);
      ghost var m1 := mem;
      Relink(free[d]);
      LinksKeep(View(), View(), m1, mem, d);
      KeepsBoth(s, View(), View(), m, m1, mem);
      ok := true;
    }

    /** list_pop_front */
    method TakeBlock(d: nat) returns (a: nat)
      requires Consistent() && d < DESC_CNT && free[d] != [] && NoneIdleBut(View(), PageOf(free[d][0]))
      modifies `arenas, `free, `mem
      ensures Valid()
      ensures forall x: nat :: Live(View(), x) <==> Live(old(View()), x) || x == a
      ensures !Live(old(View()), a) && Cap(View(), a) == BlockSize(d)
      ensures a == old(free)[d][0] && free == old(free)[d := old(free)[d][1..]] && arenas.Keys == old(arenas).Keys
      ensures OtherPages() == old(OtherPages())
      ensures KeepsLive(old(View()), View(), old(mem), mem, None)
    {
      ghost var s := View();
      ghost var m := mem;
      FrontOfList(s, d);
      PopWellFormed(s, d);
      PopLeavesNoneIdle(s, d, pool.Used());
      a := free[d][0];
      var p := a / PGSIZE;
      free := free[d := free[d][1..]];
      arenas := arenas[p := arenas[p].(freeCnt := arenas[p].freeCnt - 1)];
      assert View() == Pop(s, d);
      SpanKeepsOthers(s.arenas, arenas, pool.Used());
      Relink(free[d]);
      LinksKeep(s, View(), m, mem, d);
    }

    /** The free list that malloc looks at for this size is not empty. */
    ghost predicate HasFree(size: nat)
      reads this
    {
      size <= BlockSize(DESC_CNT - 1) && |free| == DESC_CNT && free[ClassOf(size)] != []
    }

    /** A free block of the right class, or else the pages for one. */
    ghost predicate CanGive(size: nat)
      requires pool.Valid()
      reads this, pool.usedMap.bits
    {
      && size > 0
      && (HasFree(size) || (PagesWanted(size) > 0 && exists p :: pool.FreeRun(pool.Used(), p, PagesWanted(size))))
    }

    /** malloc: a null pointer for 0 bytes; otherwise a block not in use so far,
        of at least size bytes unless the page count wraps around: the front of the free
        list, without touching the pool, or if that is empty a block on new pages; and a
        null pointer exactly if those are not there. */
    method Malloc(size: nat) returns (r: Option<nat>)
      requires Valid() && size < TWO32
      modifies this, pool.usedMap.bits
      ensures Valid()
      ensures forall a: nat :: Live(View(), a) <==> Live(old(View()), a) || r == Some(a)
      ensures r.Some? ==> !Live(old(View()), r.value)
      ensures r.Some? ==> (Cap(View(), r.value) >= size <==> Fits(size))
      ensures r.Some? && size > BlockSize(DESC_CNT - 1) ==> Cap(View(), r.value) == PGSIZE * BigPages(size) - HEADER
      ensures r.Some? && size <= BlockSize(DESC_CNT - 1) ==>
        forall d: nat :: d < DESC_CNT && size <= BlockSize(d) ==> Cap(View(), r.value) <= BlockSize(d)
      ensures r.Some? <==> old(CanGive(size))
      ensures size > 0 && old(HasFree(size)) ==>
        r == Some(old(free)[ClassOf(size)][0]) && pool.Used() == old(pool.Used()) && arenas.Keys == old(arenas).Keys
      ensures r.None? ==> View() == old(View()) && mem == old(mem)
      ensures OtherPages() == old(OtherPages())
      ensures KeepsLive(old(View()), View(), old(mem), mem, None)
    {
      if size == 0 {
        return None;
      }
      var d := FindDesc(size);
      if d == DESC_CNT {
        BigPagesSufficeExactlyWithoutWrap(size);
        r := MallocBig(size);
        return;
      }
      if free[d] == [] {
        var ok := NewArena(d);
        if !ok {
          return None;
        }
      }
      label Took:
      var a := TakeBlock(d);
      KeepsBoth(old(View()), old@Took(View()), View(), old(mem), old@Took(mem), mem);
      SmallestClass(d, size);
      r := Some(a);
    }

    /** memset */
    method Fill(lo: nat, n: nat, value: byte)
      modifies `mem
      ensures forall x: nat :: mem(x) == if Within(x, lo, n) then value else old(mem(x))
    {
      var was := mem;
      mem := (x: nat) => if Within(x, lo, n) then value else was(x);
    }

    /** memcpy */
    method Copy(dst: nat, src: nat, n: nat)
      modifies `mem
      ensures forall x: nat :: mem(x) == if Within(x, dst, n) then old(mem(src + (x - dst))) else old(mem(x))
    {
      var was := mem;
      mem := (x: nat) => if Within(x, dst, n) then was(src + (x - dst)) else was(x);
    }

    /** All blocks of the arena on page p are free: they leave the free list
        and the page goes back. */
    method ReturnArena(p: nat, d: nat)
      requires Consistent() && d < DESC_CNT && NoneIdleBut(View(), p)
      requires p in arenas && arenas[p] == Arena(Some(d), PerArena(d))
      modifies this, pool.usedMap.bits
      ensures Valid() && arenas == old(arenas) - {p} && pool.Used() == old(pool.Used()) - Run(p, 1)
      ensures OtherPages() == old(OtherPages())
      ensures forall a: nat :: Live(View(), a) <==> Live(old(View()), a)
      ensures KeepsLive(old(View()), View(), old(mem), mem, None)
    {
      ghost var s := View();
      ghost var m := mem;
      assert ListOk(s, d);
      var list := RemoveBlocks(free[d], p, d);
      Relink(free[d]);
      LinksKeep(s, s, m, mem, d);
      ghost var m1 := mem;
      free := free[d := list];
      arenas := arenas - {p};
      ReturnedOk(s, View(), p, d, pool.Used());
      ArenaLeavesNoOthers(s, pool.Used(), p);
      pool.Free(p, 1);
      Fill(p * PGSIZE, PGSIZE, 0xcc);
      PageFillKeeps(s, View(), m1, mem, p);
      KeepsBoth(s, s, View(), m, m1, mem);
    }

    /** list_remove of every block of the arena on page p. */
    method RemoveBlocks(f: seq<nat>, p: nat, d: nat) returns (list: seq<nat>)
      requires DescsOk() && d < DESC_CNT && NoDup(f)
      ensures NoDup(list) && forall x :: x in list <==> x in f && x !in Blocks(p, d, PerArena(d))
    {
      list := f;
      var i := 0;
      while i < perArena[d]
        invariant i <= perArena[d] && NoDup(list)
        invariant forall x :: x in list <==> x in f && x !in Blocks(p, d, i)
      {
        WithoutNoDup(list, Addr(p, d, i));
        list := Without(list, Addr(p, d, i));
        BlocksGrow(p, d, i);
        i := i + 1;
      }
    }

    /** free: the block is gone; if it leaves its arena without blocks in use, the arena's
        pages go back, and otherwise the block is at the front of its free list. */
    method Free(block: Option<nat>)
      requires Valid() && (block.Some? ==> Live(View(), block.value))
      modifies this, pool.usedMap.bits
      ensures Valid()
      ensures block.None? ==> View() == old(View()) && mem == old(mem) && pool.Used() == old(pool.Used())
      ensures forall a: nat :: Live(View(), a) <==> Live(old(View()), a) && block != Some(a)
      ensures block.Some? ==> var p := PageOf(block.value);
        arenas.Keys == (if p in arenas then old(arenas).Keys else old(arenas).Keys - {p}) &&
        pool.Used() == old(pool.Used()) - (if p in arenas then {} else Run(p, Span(old(arenas)[p])))
      ensures block.Some? && PageOf(block.value) in arenas ==>
        var desc := old(arenas)[PageOf(block.value)].desc;
        && desc.Some? && desc.value < |old(free)|
        && free == old(free)[desc.value := [block.value] + old(free)[desc.value]]
      ensures OtherPages() == old(OtherPages())
      ensures KeepsLive(old(View()), View(), old(mem), mem, block)
    {
      if block.None? {
        return;
      }
      var a := block.value;
      var p := a / PGSIZE;
      var ar := arenas[p];
      if ar.desc.Some? {
        FreeSmall(a);
      } else {
        FreeBig(a);
      }
    }

    method FreeBig(a: nat)
      requires Valid() && Live(View(), a) && arenas[PageOf(a)].desc.None?
      modifies this, pool.usedMap.bits
      ensures Valid() && arenas == old(arenas) - {PageOf(a)}
      ensures pool.Used() == old(pool.Used()) - Run(PageOf(a), old(arenas)[PageOf(a)].freeCnt)
      ensures OtherPages() == old(OtherPages())
      ensures forall x: nat :: Live(View(), x) <==> Live(old(View()), x) && x != a
      ensures KeepsLive(old(View()), View(), old(mem), mem, Some(a))
    {
      ghost var s := View();
      ghost var m := mem;
      var p := a / PGSIZE;
      var pageCnt := arenas[p].freeCnt;
      DropBigWellFormed(s, p);
      OthersClaimed(s, pool.Used(), p);
      ArenaLeavesNoOthers(s, pool.Used(), p);
      arenas := arenas - {p};
      assert View() == s.(arenas := s.arenas - {p});
      pool.Free(p, pageCnt);
      Fill(p * PGSIZE, PGSIZE * pageCnt, 0xcc);
      PageFillKeeps(s, View(), m, mem, p);
    }

    method FreeSmall(a: nat)
      requires Valid() && Live(View(), a) && arenas[PageOf(a)].desc.Some?
      modifies this, pool.usedMap.bits
      ensures Valid()
      ensures arenas.Keys == if PageOf(a) in arenas then old(arenas).Keys else old(arenas).Keys - {PageOf(a)}
      ensures pool.Used() == old(pool.Used()) - if PageOf(a) in arenas then {} else Run(PageOf(a), 1)
      ensures PageOf(a) in arenas ==>
        var d := old(arenas)[PageOf(a)].desc.value; d < |old(free)| && free == old(free)[d := [a] + old(free)[d]]
      ensures OtherPages() == old(OtherPages())
      ensures forall x: nat :: Live(View(), x) <==> Live(old(View()), x) && x != a
      ensures KeepsLive(old(View()), View(), old(mem), mem, Some(a))
    {
      ghost var s := View();
      ghost var m := mem;
      var p := a / PGSIZE;
      var d := arenas[p].desc.value;
      PushBlock(a, d);
      if arenas[p].freeCnt >= perArena[d] {
        ghost var s1, m1 := View(), mem;
        ReturnArena(p, d);
        KeepsBothBut(s, s1, View(), m, m1, mem, a);
      }
    }

    /** list_push_front of a cleared block, and the increment of free_cnt. */
    method PushBlock(a: nat, d: nat)
      requires Valid() && Live(View(), a) && d < DESC_CNT && arenas[PageOf(a)].desc == Some(d)
      modifies `arenas, `free, `mem
      ensures Consistent() && NoneIdleBut(View(), PageOf(a)) && View() == Push(old(View()), a, d)
      ensures arenas[PageOf(a)].freeCnt <= PerArena(d)
      ensures OtherPages() == old(OtherPages())
      ensures forall x: nat :: Live(View(), x) <==> Live(old(View()), x) && x != a
      ensures KeepsLive(old(View()), View(), old(mem), mem, Some(a))
    {
      hide Others, KeepsLive, Claimed, ArenaOk, ListOk, SpansDisjoint, NoneIdleBut, AtBlock;
      ghost var s := View();
      ghost var m := mem;
      var p := a / PGSIZE;
      Fill(a, blockSizes[d], 0xcc);
      BlockFillKeeps(s, m, mem, a);
      ghost var m1 := mem;
      PushWellFormed(s, a, d);
      PushRest(s, a, d, pool.Used());
      free := free[d := [a] + free[d]];
      arenas := arenas[p := arenas[p].(freeCnt := arenas[p].freeCnt + 1)];
      assert View() == Push(s, a, d);
      PushKeepsOthers(s, a, d, pool.Used());
      Relink(free[d]);
      LinksKeepBut(s, View(), m1, mem, d, a);
      KeepsBothBut(s, s, View(), m, m1, mem, a);
    }

    /** Does the copy of realloc stay inside the new block? */
    ghost predicate Safe(block: Option<nat>, newSize: nat)
      reads this
    {
      block.None? || CopyFits(newSize, Cap(View(), block.value))
    }

    /** realloc: on success the new block begins with the bytes of the old
        one, as many as both hold; a failure leaves the old block alone.  Nothing is
        promised when the copy does not stay inside the new block. */
    method Realloc(block: Option<nat>, newSize: nat) returns (r: Option<nat>)
      requires Valid() && (block.Some? ==> Live(View(), block.value))
      requires newSize < TWO32
      modifies this, pool.usedMap.bits
      ensures r.Some? <==> old(CanGive(newSize))
      ensures newSize > 0 && r.None? ==> View() == old(View()) && mem == old(mem)
      ensures r.None? ==> Valid()
      ensures old(Safe(block, newSize)) ==>
        && Valid() && OtherPages() == old(OtherPages())
        && (r.Some? ==> !Live(old(View()), r.value) && (Cap(View(), r.value) >= newSize <==> Fits(newSize)))
        && KeepsLive(old(View()), View(), old(mem), mem, if r.Some? || newSize == 0 then block else None)
      ensures old(Safe(block, newSize)) ==> forall a: nat :: Live(View(), a) <==>
        r == Some(a) || (Live(old(View()), a) && !((r.Some? || newSize == 0) && block == Some(a)))
      ensures old(Safe(block, newSize)) && r.Some? && block.Some? ==>
        && 0 <= Cap(old(View()), block.value)
        && Copied(old(mem), mem, r.value, block.value, Least(newSize, Cap(old(View()), block.value)))
    {
      ghost var s := View();
      ghost var m := mem;
      if newSize == 0 {
        Free(block);
        return None;
      }
      r := Malloc(newSize);
      if block.Some? && r.Some? {
        assert Keeps(s, View(), m, mem, block.value);
        CopyStaysInsideExactlyWhen(newSize, Cap(s, block.value), Cap(View(), r.value));
        MoveBlock(block.value, r.value, newSize, s, m);
      } else {
        KeepsWeaker(s, View(), m, mem, block);
      }
    }

    /** The old block's bytes copied to the new block and the old block freed;
        s and m are what they were before the new block was made. */
    method MoveBlock(src: nat, dst: nat, newSize: nat, ghost s: Store, ghost m: nat -> byte)
      requires Valid() && Live(View(), src) && Live(View(), dst) && src != dst
      requires Live(s, src) && !Live(s, dst) && KeepsLive(s, View(), m, mem, None)
      requires forall a: nat :: Live(View(), a) <==> Live(s, a) || a == dst
      modifies this, pool.usedMap.bits
      ensures Valid()
      ensures forall a: nat :: Live(View(), a) <==> a == dst || (Live(s, a) && a != src)
      ensures Cap(View(), dst) == old(Cap(View(), dst))
      ensures OtherPages() == old(OtherPages()) && 0 <= Cap(s, src)
      ensures Least(newSize, Cap(s, src)) <= old(Cap(View(), dst)) ==>
        Copied(m, mem, dst, src, Least(newSize, Cap(s, src))) && KeepsLive(s, View(), m, mem, Some(src))
    {
      ghost var s1, m1 := View(), mem;
      var oldSize := SizeOfBlock(src);
      BlockInArena(s1, src);
      assert Keeps(s, s1, m, m1, src);
      var minSize := if newSize < oldSize then newSize else oldSize;
      Copy(dst, src, minSize);
      ghost var m2 := mem;
      Free(Some(src));
      assert Keeps(s1, View(), m2, mem, dst);
      if minSize <= Cap(s1, dst) {
        CopyKeeps(s1, m1, m2, dst, minSize);
        CopiedBytes(m, m1, m2, mem, src, dst, minSize, oldSize, Cap(s1, dst));
        KeepsThrough(s, s1, View(), m, m1, m2, mem, src, dst);
      }
    }

    /** free, then malloc of a size of the same class: the same block again, if its arena
        has another block in use and so is still there. */
    method FreeThenMalloc(a: nat, size: nat) returns (r: Option<nat>)
      requires Valid() && Live(View(), a) && 0 < size <= BlockSize(DESC_CNT - 1)
      requires arenas[PageOf(a)].desc == Some(ClassOf(size))
      modifies this, pool.usedMap.bits
      ensures Valid()
      ensures (exists b: nat :: b != a && PageOf(b) == PageOf(a) && Live(old(View()), b)) ==>
        r == Some(a) && pool.Used() == old(pool.Used())
    {
      hide KeepsLive, WellFormed, NoneIdle, Others, Claimed;
      ghost var s := View();
      Free(Some(a));
      SevenLists(View());
      if b: nat :| b != a && PageOf(b) == PageOf(a) && Live(s, b) {
        assert Live(View(), b);
      }
      r := Malloc(size);
    }

    /** block_size */
    method SizeOfBlock(a: nat) returns (size: nat)
      requires Valid() && Live(View(), a)
      ensures size == Cap(View(), a)
    {
      var ar := arenas[a / PGSIZE];
      BlockInArena(View(), a);
      size := if ar.desc.Some? then blockSizes[ar.desc.value] else PGSIZE * ar.freeCnt - a % PGSIZE;
    }
  }

  /** The n bytes at dst are those that were at src. */
  ghost predicate Copied(m: nat -> byte, m': nat -> byte, dst: nat, src: nat, n: nat) {
    forall x: nat :: Within(x, dst, n) ==> m'(x) == m(src + (x - dst))
  }

  /** The bytes copied are still there after the old block is freed. */
  lemma CopiedBytes(m: nat -> byte, m1: nat -> byte, m2: nat -> byte, m3: nat -> byte,
                    src: nat, dst: nat, n: nat, srcSize: nat, dstSize: nat)
    requires n <= srcSize && n <= dstSize
    requires forall x: nat :: Within(x, src, srcSize) ==> m1(x) == m(x)
    requires Copied(m1, m2, dst, src, n)
    requires forall x: nat :: Within(x, dst, dstSize) ==> m3(x) == m2(x)
    ensures Copied(m, m3, dst, src, n)
  {
    forall x: nat | Within(x, dst, n) ensures m3(x) == m(src + (x - dst)) {
      assert Within(x, dst, dstSize) && Within(src + (x - dst), src, srcSize);
    }
  }

  lemma SameKeeps(s: Store, m: nat -> byte)
    ensures KeepsLive(s, s, m, m, None)
  {
  }

  lemma KeepsWeaker(s: Store, s': Store, m: nat -> byte, m': nat -> byte, but: Option<nat>)
    requires KeepsLive(s, s', m, m', None)
    ensures KeepsLive(s, s', m, m', but)
  {
  }

  lemma CopyKeeps(s: Store, m: nat -> byte, m': nat -> byte, b: nat, n: nat)
    requires WellFormed(s) && Live(s, b) && n <= Cap(s, b)
    requires forall x: nat :: !Within(x, b, n) ==> m'(x) == m(x)
    ensures KeepsLive(s, s, m, m', Some(b))
  {
    forall a: nat | Live(s, a) && a != b ensures Keeps(s, s, m, m', a) {
      if a < b {
        BlocksDisjoint(s, a, b);
      } else {
        BlocksDisjoint(s, b, a);
      }
    }
  }

  /** What malloc, the copy and free each keep, realloc keeps. */
  lemma KeepsThrough(s: Store, s1: Store, s2: Store, m: nat -> byte, m1: nat -> byte, m2: nat -> byte, m3: nat -> byte,
                     src: nat, dst: nat)
    requires KeepsLive(s, s1, m, m1, None) && KeepsLive(s1, s1, m1, m2, Some(dst)) && KeepsLive(s1, s2, m2, m3, Some(src))
    requires !Live(s, dst) && forall a: nat :: Live(s, a) ==> Live(s1, a)
    ensures KeepsLive(s, s2, m, m3, Some(src))
  {
    forall a: nat | Live(s, a) && a != src ensures Keeps(s, s2, m, m3, a) {
      assert Keeps(s, s1, m, m1, a) && Keeps(s1, s1, m1, m2, a) && Keeps(s1, s2, m2, m3, a);
    }
  }

  lemma KeepsBothBut(s: Store, s1: Store, s2: Store, m: nat -> byte, m1: nat -> byte, m2: nat -> byte, b: nat)
    requires KeepsLive(s, s1, m, m1, None) || KeepsLive(s, s1, m, m1, Some(b))
    requires KeepsLive(s1, s2, m1, m2, None) || KeepsLive(s1, s2, m1, m2, Some(b))
    requires forall a: nat :: Live(s, a) && a != b ==> Live(s1, a)
    ensures KeepsLive(s, s2, m, m2, Some(b))
  {
    forall a: nat | Live(s, a) && a != b ensures Keeps(s, s2, m, m2, a) {
      assert Keeps(s, s1, m, m1, a) && Keeps(s1, s2, m1, m2, a);
    }
  }

  lemma BlockFillKeeps(s: Store, m: nat -> byte, m': nat -> byte, b: nat)
    requires WellFormed(s) && Live(s, b)
    requires forall x: nat :: !Within(x, b, Cap(s, b)) ==> m'(x) == m(x)
    ensures KeepsLive(s, s, m, m', Some(b))
  {
    BlockInArena(s, b);
    CopyKeeps(s, m, m', b, Cap(s, b));
  }

  lemma LinksKeepBut(s: Store, s': Store, m: nat -> byte, m': nat -> byte, d: nat, b: nat)
    requires WellFormed(s') && d < DESC_CNT
    requires forall a: nat :: Live(s, a) && a != b ==> Live(s', a) && PageOf(a) in s.arenas && Cap(s', a) == Cap(s, a)
    requires forall x: nat :: (forall b :: b in s'.free[d] ==> !Within(x, b, 8)) ==> m'(x) == m(x)
    ensures KeepsLive(s, s', m, m', Some(b))
  {
    forall a: nat | Live(s, a) && a != b ensures Keeps(s, s', m, m', a) {
      forall x: nat | Within(x, a, Cap(s, a)) ensures m'(x) == m(x) {
        forall c | c in s'.free[d] ensures !Within(x, c, 8) {
          LinkApart(s', d, a, c);
        }
      }
    }
  }

  lemma PushRest(s: Store, a: nat, d: nat, used: set<nat>)
    requires Inv(s) && d < DESC_CNT && Live(s, a) && s.arenas[PageOf(a)].desc == Some(d)
    requires WellFormed(Push(s, a, d)) && Claimed(s.arenas, used)
    ensures NoneIdleBut(Push(s, a, d), PageOf(a)) && Claimed(Push(s, a, d).arenas, used)
    ensures Push(s, a, d).arenas[PageOf(a)].freeCnt <= PerArena(d)
    ensures forall x: nat :: Cap(Push(s, a, d), x) == Cap(s, x)
  {
    CountsBounded(Push(s, a, d), PageOf(a));
  }

  lemma BlocksGrow(p: nat, d: nat, i: nat)
    requires d < DESC_CNT
    ensures Blocks(p, d, i + 1) == Blocks(p, d, i) + [Addr(p, d, i)]
  {
  }

  /** Removing every block of page p from the free list leaves those of other pages. */
  lemma PageHasAllBlocks(s: Store, p: nat, d: nat)
    requires WellFormed(s) && d < DESC_CNT
    ensures forall x :: x in s.free[d] ==> (x !in Blocks(p, d, PerArena(d)) <==> PageOf(x) != p)
  {
    forall x | x in s.free[d] ensures x !in Blocks(p, d, PerArena(d)) <==> PageOf(x) != p {
      assert ListOk(s, d);
      BlocksMember(p, d, PerArena(d), x);
    }
  }

  /** An arena with all its blocks free, taken away. */
  lemma ReturnedOk(s: Store, s': Store, p: nat, d: nat, used: set<nat>)
    requires WellFormed(s) && d < DESC_CNT && NoneIdleBut(s, p) && Claimed(s.arenas, used)
    requires p in s.arenas && s.arenas[p] == Arena(Some(d), PerArena(d)) && s'.arenas == s.arenas - {p}
    requires |s'.free| == DESC_CNT && s'.free == s.free[d := s'.free[d]] && NoDup(s'.free[d])
    requires forall x :: x in s'.free[d] <==> x in s.free[d] && x !in Blocks(p, d, PerArena(d))
    ensures WellFormed(s') && NoneIdle(s') && Claimed(s'.arenas, used - Run(p, 1)) && Run(p, 1) <= used
    ensures forall x: nat :: Live(s', x) <==> Live(s, x)
    ensures forall x: nat :: Live(s, x) ==> PageOf(x) != p
  {
    PageHasAllBlocks(s, p, d);
    DroppedWellFormed(s, s', p, d);
    OthersClaimed(s, used, p);
  }

  /** Filling the pages of an arena that is gone disturbs no live block. */
  lemma PageFillKeeps(s: Store, s': Store, m: nat -> byte, m': nat -> byte, p: nat)
    requires WellFormed(s) && p in s.arenas && s'.arenas == s.arenas - {p}
    requires forall x: nat :: !Within(x, p * PGSIZE, PGSIZE * Span(s.arenas[p])) ==> m'(x) == m(x)
    ensures forall a: nat :: Live(s, a) && PageOf(a) != p ==> Keeps(s, s', m, m', a)
  {
    forall a: nat | Live(s, a) && PageOf(a) != p ensures Keeps(s, s', m, m', a) {
      BlockInArena(s, a);
    }
  }

  lemma SmallestClass(d: nat, size: nat)
    requires d < DESC_CNT && forall e: nat :: e < d ==> BlockSize(e) < size
    ensures forall e: nat :: e < DESC_CNT && size <= BlockSize(e) ==> BlockSize(d) <= BlockSize(e)
  {
  }

  lemma KeepsBoth(s: Store, s1: Store, s2: Store, m: nat -> byte, m1: nat -> byte, m2: nat -> byte)
    requires KeepsLive(s, s1, m, m1, None) && KeepsLive(s1, s2, m1, m2, None)
    requires forall a :: Live(s, a) ==> Live(s1, a)
    ensures KeepsLive(s, s2, m, m2, None)
  {
    forall a | Live(s, a) ensures Keeps(s, s2, m, m2, a) {
      assert Keeps(s, s1, m, m1, a) && Keeps(s1, s2, m1, m2, a);
    }
  }

  lemma PopLeavesNoneIdle(s: Store, d: nat, used: set<nat>)
    requires WellFormed(s) && d < DESC_CNT && s.free[d] != [] && NoneIdleBut(s, PageOf(s.free[d][0]))
    requires PageOf(s.free[d][0]) in s.arenas && s.arenas[PageOf(s.free[d][0])].freeCnt > 0
    requires s.arenas[PageOf(s.free[d][0])].desc.Some? && Claimed(s.arenas, used)
    ensures NoneIdle(Pop(s, d)) && Claimed(Pop(s, d).arenas, used)
    ensures forall x: nat :: Cap(Pop(s, d), x) == Cap(s, x)
  {
    CountsBounded(s, PageOf(s.free[d][0]));
  }

  lemma CountsBounded(s: Store, p: nat)
    requires WellFormed(s) && p in s.arenas && s.arenas[p].desc.Some?
    ensures s.arenas[p].desc.value < DESC_CNT && s.arenas[p].freeCnt <= PerArena(s.arenas[p].desc.value)
  {
    assert ArenaOk(s, p);
    var d := s.arenas[p].desc.value;
    FreeIdxBound(s.free[d], p, d);
  }

  /** Writing the header of the arena on page p disturbs no live block. */
  lemma HeaderKeeps(s: Store, s': Store, m: nat -> byte, m': nat -> byte, p: nat)
    requires WellFormed(s') && p in s'.arenas
    requires forall a: nat :: Live(s, a) ==> Live(s', a) && PageOf(a) in s.arenas && Cap(s', a) == Cap(s, a)
    requires forall x: nat :: !Within(x, p * PGSIZE, HEADER) ==> m'(x) == m(x)
    ensures KeepsLive(s, s', m, m', None)
  {
    forall a: nat | Live(s, a) ensures Keeps(s, s', m, m', a) {
      BlocksMissHeaders(s', a, p);
    }
  }

  /** Nor does linking the free blocks anew. */
  lemma LinksKeep(s: Store, s': Store, m: nat -> byte, m': nat -> byte, d: nat)
    requires WellFormed(s') && d < DESC_CNT
    requires forall a: nat :: Live(s, a) ==> Live(s', a) && PageOf(a) in s.arenas && Cap(s', a) == Cap(s, a)
    requires forall x: nat :: (forall b :: b in s'.free[d] ==> !Within(x, b, 8)) ==> m'(x) == m(x)
    ensures KeepsLive(s, s', m, m', None)
  {
    forall a: nat | Live(s, a) ensures Keeps(s, s', m, m', a) {
      forall x: nat | Within(x, a, Cap(s, a)) ensures m'(x) == m(x) {
        forall b | b in s'.free[d] ensures !Within(x, b, 8) {
          LinkApart(s', d, a, b);
        }
      }
    }
  }

  lemma LinkApart(s: Store, d: nat, a: nat, b: nat)
    requires WellFormed(s) && d < DESC_CNT && Live(s, a) && b in s.free[d]
    ensures a + Cap(s, a) <= b || b + 8 <= a
  {
    assert ListOk(s, d);
    assert Cap(s, b) == BlockSize(d);
    if a < b {
      BlocksDisjoint(s, a, b);
    } else if b < a {
      BlocksDisjoint(s, b, a);
    }
  }
}
