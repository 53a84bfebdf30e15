/**
 The heap of threads/malloc.c as a value: its arenas, by page number, and the
 free lists of its descriptors.  An address is a byte address.
 */
module HeapModel {
  import opened Bitmap
  import opened Common
  import opened Palloc

  const HEADER := 12       // sizeof (struct arena)
  const DESC_CNT := 7
  /** The block sizes: powers of two from 16 up to below half a page. */
  function BlockSize(d: nat): nat
    requires d < DESC_CNT
  {
    if d == 0 then 16 else if d == 1 then 32 else if d == 2 then 64 else if d == 3 then 128
    else if d == 4 then 256 else if d == 5 then 512 else 1024
  }

  function PerArena(d: nat): nat
    requires d < DESC_CNT
  {
    (PGSIZE - HEADER) / BlockSize(d)
  }

  /** The sizes double from 16 to below half a page, and an arena has as many blocks as
      fit behind its header. */
  lemma ArenaIsFull(d: nat)
    requires d < DESC_CNT
    ensures BlockSize(d) == 16 * Power2(d) && BlockSize(DESC_CNT - 1) < PGSIZE / 2 <= 2 * BlockSize(DESC_CNT - 1)
    ensures HEADER + PerArena(d) * BlockSize(d) <= PGSIZE < HEADER + (PerArena(d) + 1) * BlockSize(d)
  {
    assert Power2(3) == 8;
  }

  /** struct arena; freeCnt is the number of pages of a big block. */
  datatype Arena = Arena(desc: Option<nat>, freeCnt: nat)

  datatype Store = Store(arenas: map<nat, Arena>, free: seq<seq<nat>>)

  function PageOf(a: nat): nat {
    a / PGSIZE
  }

  /** Where block i lies within its arena. */
  function BlockOfs(d: nat, i: nat): nat
    requires d < DESC_CNT
  {
    HEADER + i * BlockSize(d)
  }

  /** arena_to_block */
  function Addr(page: nat, d: nat, i: nat): nat
    requires d < DESC_CNT
  {
    page * PGSIZE + BlockOfs(d, i)
  }

  lemma BlockFits(d: nat, i: nat)
    requires d < DESC_CNT && i < PerArena(d)
    ensures HEADER <= BlockOfs(d, i) && BlockOfs(d, i) + BlockSize(d) <= PGSIZE
  {
    ProductAtMost(i, PerArena(d) - 1, BlockSize(d));
  }

  lemma BlocksApart(d: nat, i: nat, j: nat)
    requires d < DESC_CNT && i < j
    ensures BlockOfs(d, i) + BlockSize(d) <= BlockOfs(d, j)
  {
    ProductAtMost(i + 1, j, BlockSize(d));
  }

  lemma PageOfSum(page: nat, ofs: nat)
    requires ofs < PGSIZE
    ensures PageOf(page * PGSIZE + ofs) == page && (page * PGSIZE + ofs) % PGSIZE == ofs
  {
  }

  /** block_to_arena finds the arena back. */
  lemma BlockToArena(page: nat, d: nat, i: nat)
    requires d < DESC_CNT && i < PerArena(d)
    ensures PageOf(Addr(page, d, i)) == page
  {
    BlockFits(d, i);
    PageOfSum(page, BlockOfs(d, i));
  }

  lemma AddrInjective(p: nat, d: nat, i: nat, j: nat)
    requires d < DESC_CNT && Addr(p, d, i) == Addr(p, d, j)
    ensures i == j
  {
    if i < j {
      BlocksApart(d, i, j);
    } else if j < i {
      BlocksApart(d, j, i);
    }
  }

  /** Some block of an arena on page p begins at address a. */
  ghost predicate AtBlock(a: nat, p: nat, d: nat)
    requires d < DESC_CNT
  {
    exists i: nat :: i < PerArena(d) && a == Addr(p, d, i)
  }

  function Span(ar: Arena): nat {
    if ar.desc.None? then ar.freeCnt else 1
  }

  /** The blocks of the arena on page p that are on free list f. */
  function FreeIdx(f: seq<nat>, p: nat, d: nat): set<nat>
    requires d < DESC_CNT
  {
    set i: nat | i < PerArena(d) && Addr(p, d, i) in f
  }

  /** An arena header: a descriptor and the number of its blocks on the
      descriptor's free list, or no descriptor and the pages of a big block. */
  ghost predicate ArenaOk(s: Store, p: nat)
    requires |s.free| == DESC_CNT && p in s.arenas
  {
    var ar := s.arenas[p];
    if ar.desc.None? then ar.freeCnt > 0
    else ar.desc.value < DESC_CNT && ar.freeCnt == |FreeIdx(s.free[ar.desc.value], p, ar.desc.value)|
  }

  /** A free list holds blocks of arenas of its descriptor, each once. */
  ghost predicate ListOk(s: Store, d: nat)
    requires |s.free| == DESC_CNT && d < DESC_CNT
  {
    && NoDup(s.free[d])
    && forall a :: a in s.free[d] ==>
         PageOf(a) in s.arenas && s.arenas[PageOf(a)].desc == Some(d) && AtBlock(a, PageOf(a), d)
  }

  ghost predicate SpansDisjoint(arenas: map<nat, Arena>) {
    forall p, q :: p in arenas && q in arenas && p < q ==> p + Span(arenas[p]) <= q
  }

  ghost predicate WellFormed(s: Store) {
    && |s.free| == DESC_CNT
    && (forall p :: p in s.arenas ==> ArenaOk(s, p))
    && (forall d: nat :: d < DESC_CNT ==> ListOk(s, d))
    && SpansDisjoint(s.arenas)
  }

  /** Some block of every small arena is in use. */
  ghost predicate NoneIdle(s: Store) {
    forall p :: p in s.arenas && s.arenas[p].desc.Some? && s.arenas[p].desc.value < DESC_CNT ==>
      s.arenas[p].freeCnt < PerArena(s.arenas[p].desc.value)
  }

  /** What holds between calls. */
  ghost predicate Inv(s: Store) {
    WellFormed(s) && NoneIdle(s)
  }

  /** A block of an arena, in use or free. */
  ghost predicate IsBlock(s: Store, a: nat) {
    && PageOf(a) in s.arenas
    && var ar := s.arenas[PageOf(a)];
       if ar.desc.None? then a == PageOf(a) * PGSIZE + HEADER
       else ar.desc.value < DESC_CNT && AtBlock(a, PageOf(a), ar.desc.value)
  }

  /** A block that malloc has given out and free has not taken back. */
  ghost predicate Live(s: Store, a: nat) {
    && IsBlock(s, a)
    && var ar := s.arenas[PageOf(a)];
       ar.desc.Some? && ar.desc.value < |s.free| ==> a !in s.free[ar.desc.value]
  }

  /** block_size */
  function Capacity(ar: Arena): int {
    if ar.desc.Some? then (if ar.desc.value < DESC_CNT then BlockSize(ar.desc.value) else 0)
    else PGSIZE * ar.freeCnt - HEADER
  }

  /** The bytes of block a. */
  ghost function Cap(s: Store, a: nat): int {
    if PageOf(a) in s.arenas then Capacity(s.arenas[PageOf(a)]) else 0
  }

  predicate Within(x: nat, lo: nat, n: int) {
    lo <= x < lo + n
  }

  // ------------------------------------------------------ no two blocks overlap

  lemma BlockInArena(s: Store, a: nat)
    requires WellFormed(s) && IsBlock(s, a)
    ensures var p := PageOf(a);
      p * PGSIZE + HEADER <= a && a + Cap(s, a) <= (p + Span(s.arenas[p])) * PGSIZE && Cap(s, a) > 0
  {
    var p := PageOf(a);
    var ar := s.arenas[p];
    assert ArenaOk(s, p);
    if ar.desc.Some? {
      var d := ar.desc.value;
      var i: nat :| i < PerArena(d) && a == Addr(p, d, i);
      BlockFits(d, i);
    }
  }

  /** Distinct blocks, in use or free, have no byte in common. */
  lemma BlocksDisjoint(s: Store, a: nat, b: nat)
    requires WellFormed(s) && IsBlock(s, a) && IsBlock(s, b) && a < b
    ensures a + Cap(s, a) <= b
  {
    BlockInArena(s, a);
    BlockInArena(s, b);
    var p, q := PageOf(a), PageOf(b);
    if p == q {
      var ar := s.arenas[p];
      assert ArenaOk(s, p);
      if ar.desc.Some? {
        var d := ar.desc.value;
        var i: nat :| i < PerArena(d) && a == Addr(p, d, i);
        var j: nat :| j < PerArena(d) && b == Addr(p, d, j);
        if j < i {
          BlocksApart(d, j, i);
        } else {
          BlocksApart(d, i, j);
        }
      }
    }
  }

  /** Blocks stay clear of every arena's header. */
  lemma BlocksMissHeaders(s: Store, a: nat, p: nat)
    requires WellFormed(s) && IsBlock(s, a) && p in s.arenas
    ensures a + Cap(s, a) <= p * PGSIZE || p * PGSIZE + HEADER <= a
  {
    BlockInArena(s, a);
  }

  // ------------------------------------------------------------ conservation

  lemma SubsetCount(x: set<nat>, n: nat)
    requires x <= Run(0, n)
    ensures |x| <= n
    ensures |x| == n ==> x == Run(0, n)
  {
    RunSize(0, n);
    SubsetSize(x, Run(0, n));
  }

  lemma FreeIdxBound(f: seq<nat>, p: nat, d: nat)
    requires d < DESC_CNT
    ensures |FreeIdx(f, p, d)| <= PerArena(d)
    ensures |FreeIdx(f, p, d)| == PerArena(d) <==> forall i: nat :: i < PerArena(d) ==> Addr(p, d, i) in f
  {
    SubsetCount(FreeIdx(f, p, d), PerArena(d));
    if |FreeIdx(f, p, d)| == PerArena(d) {
      forall i: nat | i < PerArena(d) ensures Addr(p, d, i) in f {
        assert i in Run(0, PerArena(d));
      }
    } else if forall i: nat :: i < PerArena(d) ==> Addr(p, d, i) in f {
      assert FreeIdx(f, p, d) == Run(0, PerArena(d));
      RunSize(0, PerArena(d));
    }
  }

  ghost function LiveIdx(s: Store, p: nat, d: nat): set<nat>
    requires d < DESC_CNT
  {
    set i: nat | i < PerArena(d) && Live(s, Addr(p, d, i))
  }

  /** Every block of a small arena is either live or counted in free_cnt. */
  lemma BlocksConserved(s: Store, p: nat, d: nat)
    requires WellFormed(s) && p in s.arenas && s.arenas[p].desc == Some(d)
    ensures d < DESC_CNT && |LiveIdx(s, p, d)| + s.arenas[p].freeCnt == PerArena(d)
  {
    assert ArenaOk(s, p);
    var free, live := FreeIdx(s.free[d], p, d), LiveIdx(s, p, d);
    forall i: nat | i < PerArena(d) ensures i in live <==> i !in free {
      BlockToArena(p, d, i);
      assert AtBlock(Addr(p, d, i), p, d);
    }
    RunSize(0, PerArena(d));
    assert free + live == Run(0, PerArena(d));
    assert free !! live;
  }

  // --------------------------------------------------------------- new arena

  /** The first n blocks of the arena on page p. */
  function Blocks(p: nat, d: nat, n: nat): (r: seq<nat>)
    requires d < DESC_CNT
    ensures |r| == n
  {
    seq(n, i requires 0 <= i < n => Addr(p, d, i))
  }

  lemma BlocksMember(p: nat, d: nat, n: nat, a: nat)
    requires d < DESC_CNT && n <= PerArena(d)
    ensures a in Blocks(p, d, n) <==> exists i: nat :: i < n && a == Addr(p, d, i)
    ensures a in Blocks(p, d, n) ==> PageOf(a) == p && AtBlock(a, p, d)
    ensures NoDup(Blocks(p, d, n))
  {
    var r := Blocks(p, d, n);
    forall i, j | 0 <= i < j < n ensures r[i] != r[j] {
      BlocksApart(d, i, j);
    }
    if a in r {
      var i :| 0 <= i < n && r[i] == a;
      BlockToArena(p, d, i);
    }
    if i: nat :| i < n && a == Addr(p, d, i) {
      assert r[i] == a;
    }
  }

  /** A new arena on page p, all its blocks pushed on an empty free list. */
  function AddArena(s: Store, p: nat, d: nat): Store
    requires |s.free| == DESC_CNT && d < DESC_CNT
  {
    Store(s.arenas[p := Arena(Some(d), PerArena(d))], s.free[d := s.free[d] + Blocks(p, d, PerArena(d))])
  }

  /** Page p is in no arena. */
  ghost predicate Unclaimed(arenas: map<nat, Arena>, p: nat, cnt: nat) {
    forall q :: q in arenas ==> q + Span(arenas[q]) <= p || p + cnt <= q
  }

  lemma SameFreeIdx(f: seq<nat>, f': seq<nat>, p: nat, d: nat)
    requires d < DESC_CNT
    requires forall a :: PageOf(a) == p ==> (a in f <==> a in f')
    ensures FreeIdx(f, p, d) == FreeIdx(f', p, d)
  {
    forall i: nat | i < PerArena(d) ensures Addr(p, d, i) in f <==> Addr(p, d, i) in f' {
      BlockToArena(p, d, i);
    }
  }

  /** An arena is as good as before if its header and the free blocks on its page are. */
  lemma ArenaStays(s: Store, s': Store, p: nat)
    requires |s.free| == |s'.free| == DESC_CNT && p in s.arenas && p in s'.arenas && s'.arenas[p] == s.arenas[p]
    requires ArenaOk(s, p)
    requires forall d: nat, a :: d < DESC_CNT && PageOf(a) == p ==> (a in s.free[d] <==> a in s'.free[d])
    ensures ArenaOk(s', p)
  {
    var ar := s.arenas[p];
    if ar.desc.Some? {
      SameFreeIdx(s.free[ar.desc.value], s'.free[ar.desc.value], p, ar.desc.value);
    }
  }

  lemma AddArenaList(s: Store, p: nat, d: nat, e: nat)
    requires WellFormed(s) && d < DESC_CNT && e < DESC_CNT && p !in s.arenas
    ensures ListOk(AddArena(s, p, d), e)
  {
    var s' := AddArena(s, p, d);
    assert ListOk(s, e);
    if e == d {
      forall a ensures a in Blocks(p, d, PerArena(d)) ==>
        PageOf(a) == p && AtBlock(a, p, d) && a !in s.free[d]
      {
        BlocksMember(p, d, PerArena(d), a);
      }
      BlocksMember(p, d, PerArena(d), 0);
      NoDupJoin(s.free[d], Blocks(p, d, PerArena(d)));
    }
  }

  lemma AddArenaWellFormed(s: Store, p: nat, d: nat)
    requires WellFormed(s) && d < DESC_CNT && Unclaimed(s.arenas, p, 1)
    ensures p !in s.arenas && WellFormed(AddArena(s, p, d))
    ensures forall a :: Live(AddArena(s, p, d), a) <==> Live(s, a)
  {
    NewPage(s, p, 1);
    var s' := AddArena(s, p, d);
    forall a ensures a in Blocks(p, d, PerArena(d)) <==> AtBlock(a, p, d) {
      BlocksMember(p, d, PerArena(d), a);
    }
    forall q | q in s'.arenas ensures ArenaOk(s', q) {
      if q == p {
        FreeIdxBound(s'.free[d], p, d);
      } else {
        forall a | PageOf(a) == q ensures a in s.free[d] <==> a in s'.free[d] {
          BlocksMember(p, d, PerArena(d), a);
        }
        ArenaStays(s, s', q);
      }
    }
    forall e: nat | e < DESC_CNT ensures ListOk(s', e) {
      AddArenaList(s, p, d, e);
    }
    forall a ensures Live(s', a) <==> Live(s, a) {
      BlocksMember(p, d, PerArena(d), a);
    }
  }

  lemma NewPage(s: Store, p: nat, cnt: nat)
    requires WellFormed(s) && Unclaimed(s.arenas, p, cnt) && cnt > 0
    ensures p !in s.arenas
    ensures forall a :: Live(s, a) ==> PageOf(a) != p
  {
    assert p in s.arenas ==> ArenaOk(s, p);
  }

  /** A big block. */
  function AddBig(s: Store, p: nat, pageCnt: nat): Store {
    s.(arenas := s.arenas[p := Arena(None, pageCnt)])
  }

  lemma AddBigWellFormed(s: Store, p: nat, cnt: nat)
    requires WellFormed(s) && Unclaimed(s.arenas, p, cnt) && cnt > 0
    ensures WellFormed(AddBig(s, p, cnt))
    ensures NoneIdle(s) ==> NoneIdle(AddBig(s, p, cnt))
    ensures forall a :: Live(AddBig(s, p, cnt), a) <==> Live(s, a) || a == p * PGSIZE + HEADER
  {
    NewPage(s, p, cnt);
    var s' := AddBig(s, p, cnt);
    forall q | q in s'.arenas ensures ArenaOk(s', q) {
      if q != p {
        ArenaStays(s, s', q);
      }
    }
    forall e: nat | e < DESC_CNT ensures ListOk(s', e) {
      assert ListOk(s, e);
    }
    PageOfSum(p, HEADER);
  }

  // ------------------------------------------------------------- pop and push

  /** list_pop_front and the decrement of free_cnt. */
  function Pop(s: Store, d: nat): Store
    requires |s.free| == DESC_CNT && d < DESC_CNT && s.free[d] != []
    requires var p := PageOf(s.free[d][0]); p in s.arenas && s.arenas[p].freeCnt > 0
  {
    var p := PageOf(s.free[d][0]);
    Store(s.arenas[p := s.arenas[p].(freeCnt := s.arenas[p].freeCnt - 1)], s.free[d := s.free[d][1..]])
  }

  /** One more block on the free list, one more index in the set. */
  lemma OneMoreIdx(f: seq<nat>, f': seq<nat>, p: nat, d: nat, a: nat)
    requires d < DESC_CNT && AtBlock(a, p, d) && a !in f
    requires forall x :: x in f' <==> x == a || x in f
    ensures |FreeIdx(f', p, d)| == |FreeIdx(f, p, d)| + 1
  {
    var i: nat :| i < PerArena(d) && a == Addr(p, d, i);
    forall j: nat | Addr(p, d, j) == a ensures j == i {
      AddrInjective(p, d, i, j);
    }
    assert FreeIdx(f', p, d) == FreeIdx(f, p, d) + {i};
  }

  lemma FrontOfList(s: Store, d: nat)
    requires WellFormed(s) && d < DESC_CNT && s.free[d] != []
    ensures var a := s.free[d][0]; var p := PageOf(a);
      p in s.arenas && s.arenas[p].desc == Some(d) && s.arenas[p].freeCnt > 0 && AtBlock(a, p, d)
  {
    var a := s.free[d][0];
    var p := PageOf(a);
    assert ListOk(s, d);
    assert a in s.free[d];
    assert ArenaOk(s, p);
    var i: nat :| i < PerArena(d) && a == Addr(p, d, i);
    assert i in FreeIdx(s.free[d], p, d);
  }

  lemma PopWellFormed(s: Store, d: nat)
    requires WellFormed(s) && d < DESC_CNT && s.free[d] != []
    ensures var p := PageOf(s.free[d][0]); p in s.arenas && s.arenas[p].freeCnt > 0
    ensures WellFormed(Pop(s, d))
    ensures forall a :: Live(Pop(s, d), a) <==> Live(s, a) || a == s.free[d][0]
    ensures !Live(s, s.free[d][0])
  {
    hide Live, IsBlock;
    FrontOfList(s, d);
    PopLive(s, d);
    var s' := Pop(s, d);
    var a := s.free[d][0];
    var p := PageOf(a);
    assert ListOk(s, d);
    NoDupRest(s.free[d]);
    forall q | q in s'.arenas ensures ArenaOk(s', q) {
      assert ArenaOk(s, q);
      if q == p {
        OneMoreIdx(s'.free[d], s.free[d], p, d, a);
      } else {
        ArenaStays(s, s', q);
      }
    }
    forall e: nat | e < DESC_CNT ensures ListOk(s', e) {
      assert ListOk(s, e);
    }
  }

  lemma PopLive(s: Store, d: nat)
    requires WellFormed(s) && d < DESC_CNT && s.free[d] != []
    ensures var p := PageOf(s.free[d][0]); p in s.arenas && s.arenas[p].freeCnt > 0
    ensures forall a :: Live(Pop(s, d), a) <==> Live(s, a) || a == s.free[d][0]
    ensures !Live(s, s.free[d][0])
  {
    hide ArenaOk, SpansDisjoint;
    FrontOfList(s, d);
    assert ListOk(s, d);
    NoDupRest(s.free[d]);
    assert s.free[d][0] in s.free[d];
  }

  /** list_push_front and the increment of free_cnt. */
  function Push(s: Store, a: nat, d: nat): Store
    requires |s.free| == DESC_CNT && d < DESC_CNT && PageOf(a) in s.arenas
  {
    var p := PageOf(a);
    Store(s.arenas[p := s.arenas[p].(freeCnt := s.arenas[p].freeCnt + 1)], s.free[d := [a] + s.free[d]])
  }

  lemma PushArena(s: Store, a: nat, d: nat, q: nat)
    requires WellFormed(s) && d < DESC_CNT && Live(s, a) && s.arenas[PageOf(a)].desc == Some(d) && q in s.arenas
    ensures ArenaOk(Push(s, a, d), q)
  {
    var s' := Push(s, a, d);
    assert ArenaOk(s, q);
    if q == PageOf(a) {
      OneMoreIdx(s.free[d], s'.free[d], q, d, a);
    } else {
      ArenaStays(s, s', q);
    }
  }

  lemma PushList(s: Store, a: nat, d: nat, e: nat)
    requires WellFormed(s) && d < DESC_CNT && Live(s, a) && s.arenas[PageOf(a)].desc == Some(d) && e < DESC_CNT
    ensures ListOk(Push(s, a, d), e)
  {
    assert ListOk(s, e);
  }

  lemma PushWellFormed(s: Store, a: nat, d: nat)
    requires WellFormed(s) && d < DESC_CNT && Live(s, a) && s.arenas[PageOf(a)].desc == Some(d)
    ensures WellFormed(Push(s, a, d))
    ensures forall x :: Live(Push(s, a, d), x) <==> Live(s, x) && x != a
  {
    var s' := Push(s, a, d);
    forall q | q in s'.arenas ensures ArenaOk(s', q) {
      PushArena(s, a, d, q);
    }
    forall e: nat | e < DESC_CNT ensures ListOk(s', e) {
      PushList(s, a, d, e);
    }
  }

  // ------------------------------------------------------------ giving back

  /** The arena on page p gone, and with it its blocks from their free list. */
  ghost predicate Dropped(s: Store, s': Store, p: nat, d: nat)
    requires |s.free| == DESC_CNT && d < DESC_CNT
  {
    && s'.arenas == s.arenas - {p}
    && |s'.free| == DESC_CNT
    && (forall e: nat :: e < DESC_CNT && e != d ==> s'.free[e] == s.free[e])
    && NoDup(s'.free[d])
    && forall x :: x in s'.free[d] <==> x in s.free[d] && PageOf(x) != p
  }

  lemma DroppedWellFormed(s: Store, s': Store, p: nat, d: nat)
    requires WellFormed(s) && d < DESC_CNT && p in s.arenas && s.arenas[p] == Arena(Some(d), PerArena(d))
    requires Dropped(s, s', p, d)
    ensures WellFormed(s')
    ensures forall x :: Live(s', x) <==> Live(s, x)
  {
    forall q | q in s'.arenas ensures ArenaOk(s', q) {
      ArenaStays(s, s', q);
    }
    forall e: nat | e < DESC_CNT ensures ListOk(s', e) {
      assert ListOk(s, e);
    }
    forall x | PageOf(x) == p ensures !Live(s, x) {
      assert ArenaOk(s, p);
      FreeIdxBound(s.free[d], p, d);
    }
  }

  lemma DropBigWellFormed(s: Store, p: nat)
    requires WellFormed(s) && p in s.arenas && s.arenas[p].desc.None?
    ensures WellFormed(s.(arenas := s.arenas - {p}))
    ensures NoneIdle(s) ==> NoneIdle(s.(arenas := s.arenas - {p}))
    ensures forall x :: Live(s.(arenas := s.arenas - {p}), x) <==> Live(s, x) && x != p * PGSIZE + HEADER
  {
    var s' := s.(arenas := s.arenas - {p});
    forall q | q in s'.arenas ensures ArenaOk(s', q) {
      ArenaStays(s, s', q);
    }
    forall e: nat | e < DESC_CNT ensures ListOk(s', e) {
      assert ListOk(s, e);
    }
    PageOfSum(p, HEADER);
  }
}
