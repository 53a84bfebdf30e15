/**
 The two-level page table of userprog/pagedir.c and threads/pte.h, proved to be
 a map from virtual pages to page table entries.  A frame is named by its
 physical page number; `tables` has the words of the frames that hold the page
 directory and the page tables.
 */
module Pagedir {
  import opened Bits
  import opened Common

  const ENTRIES := 1024
  const USER_PDES := 768        // pd_no (PHYS_BASE)
  const PAGES := 0x10_0000      // pages of the address space

  // Flag bits: PTE_P, PTE_W, PTE_U, PTE_A and PTE_D.
  const P := 0
  const W := 1
  const U := 2
  const A := 5
  const D := 6

  // ------------------------------------------------------------ entries

  /** x >> k */
  function ShiftRight(x: nat, k: nat): nat {
    if k == 0 then x else ShiftRight(x / 2, k - 1)
  }

  lemma {:induction false} BitwiseShift(f: (bool, bool) -> bool, v: nat, w: nat, n: nat, k: nat)
    requires k <= n
    ensures ShiftRight(Bitwise(f, v, w, n), k) == Bitwise(f, ShiftRight(v, k), ShiftRight(w, k), n - k)
  {
    if k > 0 {
      BitwiseShift(f, v / 2, w / 2, n - 1, k - 1);
    }
  }

  lemma ShiftFour(x: nat, k: nat)
    ensures ShiftRight(x, k + 4) == ShiftRight(x / 16, k)
  {
    assert ShiftRight(x, k + 4) == ShiftRight(x / 2, k + 3) == ShiftRight(x / 2 / 2, k + 2);
    assert ShiftRight(x / 2 / 2, k + 2) == ShiftRight(x / 2 / 2 / 2, k + 1) == ShiftRight(x / 2 / 2 / 2 / 2, k);
    assert x / 2 / 2 / 2 / 2 == x / 16;
  }

  lemma ShiftTwelve(x: nat)
    ensures ShiftRight(x, 12) == x / PGSIZE
  {
    ShiftFour(x, 8);
    ShiftFour(x / 16, 4);
    ShiftFour(x / 16 / 16, 0);
  }

  lemma {:induction false} OrZero(v: nat, n: nat)
    requires v < Power2(n)
    ensures Bitwise((a, b) => a || b, v, 0, n) == v
  {
    if n > 0 {
      OrZero(v / 2, n - 1);
    }
  }

  lemma {:induction false} AndOnes(v: nat, n: nat)
    requires v < Power2(n)
    ensures Bitwise((a, b) => a && b, v, Power2(n) - 1, n) == v
  {
    if n > 0 {
      assert (Power2(n) - 1) / 2 == Power2(n - 1) - 1;
      AndOnes(v / 2, n - 1);
    }
  }

  /** The frame of an entry. */
  function Frame(w: Word): nat {
    w / PGSIZE
  }

  lemma MaskTwenty()
    ensures Power2(12) == PGSIZE && Power2(20) == PAGES
  {
    assert Power2(10) == 1024;
    assert Power2(16) == 0x1_0000;
  }

  /** Turning on flags leaves the frame. */
  lemma OrKeepsFrame(w: Word, flags: Word)
    requires flags < PGSIZE
    ensures Frame(Or(w, flags)) == Frame(w)
  {
    BitwiseShift((a, b) => a || b, w, flags, WORD_BITS, 12);
    ShiftTwelve(w);
    ShiftTwelve(flags);
    ShiftTwelve(Or(w, flags));
    MaskTwenty();
    OrZero(w / PGSIZE, 20);
  }

  /** So does turning one off. */
  lemma AndKeepsFrame(w: Word, flag: nat)
    requires flag < 12
    ensures Frame(And(w, Not(Shifted(flag)))) == Frame(w)
  {
    var ones := Not(Shifted(flag));
    BitwiseShift((a, b) => a && b, w, ones, WORD_BITS, 12);
    ShiftTwelve(w);
    ShiftTwelve(ones);
    ShiftTwelve(And(w, ones));
    MaskTwenty();
    MaskGrows(flag, 12);
    assert ones / PGSIZE == Power2(20) - 1;
    AndOnes(w / PGSIZE, 20);
  }

  lemma {:induction false} AlignedBits(x: nat, n: nat, k: nat)
    requires x % Power2(n) == 0 && k < n
    ensures !Bit(x, k)
  {
    DoubleRemainder(x, Power2(n - 1));
    if k > 0 {
      AlignedBits(x / 2, n - 1, k - 1);
    }
  }

  /** vtop */
  function Vtop(kaddr: Word): Word
    requires kaddr >= PHYS_BASE
  {
    kaddr - PHYS_BASE
  }

  /** An address with three flags ORed in. */
  function Flagged(addr: Word, i: nat, j: nat, k: nat): Word
    requires i < 12 && j < 12 && k < 12
  {
    Or(Or(addr, Or(Shifted(i), Shifted(j))), Shifted(k))
  }

  /** pte_create_user: PTE_P and PTE_U, and PTE_W if writable. */
  function PteCreateUser(kpage: Word, writable: bool): Word
    requires kpage >= PHYS_BASE
  {
    Flagged(Vtop(kpage), P, if writable then W else P, U)
  }

  /** pde_create */
  function PdeCreate(frame: nat): Word
    requires frame < PAGES
  {
    Flagged(frame * PGSIZE, U, P, W)
  }

  lemma FlagsBelow(j: nat, k: nat)
    requires j < 12 && k < 12
    ensures Shifted(j) < PGSIZE && Or(Shifted(j), Shifted(k)) < PGSIZE
  {
    MaskTwenty();
    MaskGrows(j, 12);
    MaskGrows(k, 12);
    OrKeepsFrame(Shifted(j), Shifted(k));
  }

  /** Bit k of an aligned address with flags ORed in. */
  lemma FlagBit(addr: Word, flags: Word, k: nat)
    requires addr % PGSIZE == 0 && k < 12
    ensures Bit(Or(addr, flags), k) == Bit(flags, k)
  {
    OrBits(addr, flags, k);
    MaskTwenty();
    AlignedBits(addr, 12, k);
  }

  /** The frame of the address and just those flags. */
  lemma FlaggedMeaning(addr: Word, i: nat, j: nat, k: nat, b: nat)
    requires addr % PGSIZE == 0 && i < 12 && j < 12 && k < 12 && b < 12
    ensures Frame(Flagged(addr, i, j, k)) == Frame(addr)
    ensures Bit(Flagged(addr, i, j, k), b) <==> b == i || b == j || b == k
  {
    var f := Or(Shifted(i), Shifted(j));
    FlagsBelow(i, j);
    FlagsBelow(k, k);
    OrKeepsFrame(addr, f);
    OrKeepsFrame(Or(addr, f), Shifted(k));
    OrBits(Or(addr, f), Shifted(k), b);
    FlagBit(addr, f, b);
    OrBits(Shifted(i), Shifted(j), b);
    MaskBits(i, b);
    MaskBits(j, b);
    MaskBits(k, b);
  }

  /** A fresh entry: present, user, writable as asked, neither accessed nor dirty. */
  lemma PteCreateMeaning(kpage: Word, writable: bool)
    requires kpage >= PHYS_BASE && kpage % PGSIZE == 0
    ensures var w := PteCreateUser(kpage, writable);
      && Frame(w) == Vtop(kpage) / PGSIZE
      && Bit(w, P) && Bit(w, U) && Bit(w, W) == writable && !Bit(w, A) && !Bit(w, D)
  {
    hide Flagged;
    forall b: nat | b < 12
      ensures Bit(PteCreateUser(kpage, writable), b) <==> b == P || (writable && b == W) || b == U
    {
      FlaggedMeaning(Vtop(kpage), P, if writable then W else P, U, b);
    }
    FlaggedMeaning(Vtop(kpage), P, if writable then W else P, U, P);
  }

  /** A directory entry: present, and no bar to what the table's entries allow. */
  lemma PdeCreateMeaning(frame: nat)
    requires frame < PAGES
    ensures PdeCreate(frame) != 0 && Frame(PdeCreate(frame)) == frame
    ensures Bit(PdeCreate(frame), P) && Bit(PdeCreate(frame), W) && Bit(PdeCreate(frame), U)
    ensures !Bit(PdeCreate(frame), A) && !Bit(PdeCreate(frame), D)
  {
    hide Flagged;
    forall b: nat | b < 12 ensures Bit(PdeCreate(frame), b) <==> b == U || b == P || b == W {
      FlaggedMeaning(frame * PGSIZE, U, P, W, b);
    }
    FlaggedMeaning(frame * PGSIZE, U, P, W, P);
    ZeroBits(P);
  }

  /** An entry with one flag set to value. */
  function WithFlag(w: Word, flag: nat, value: bool): Word
    requires flag < 12
  {
    if value then Or(w, Shifted(flag)) else And(w, Not(Shifted(flag)))
  }

  /** The frame and all other bits stay. */
  lemma WithFlagMeaning(w: Word, flag: nat, value: bool)
    requires flag < 12
    ensures var w' := WithFlag(w, flag, value);
      && Frame(w') == Frame(w)
      && forall k: nat :: k < WORD_BITS ==> Bit(w', k) == if k == flag then value else Bit(w, k)
  {
    FlagsBelow(flag, flag);
    if value {
      OrKeepsFrame(w, Shifted(flag));
    } else {
      AndKeepsFrame(w, flag);
    }
    forall k: nat | k < WORD_BITS
      ensures Bit(WithFlag(w, flag, value), k) == if k == flag then value else Bit(w, k)
    {
      OrBits(w, Shifted(flag), k);
      AndBits(w, Not(Shifted(flag)), k);
      NotBits(Shifted(flag), k);
      MaskBits(flag, k);
    }
  }

  // ------------------------------------------------------------ the two levels

  /** Frame pd holds the page directory. */
  datatype Paging = Paging(pd: nat, tables: map<nat, seq<Word>>)

  /** A frame with one word stored. */
  function Stored(t: seq<Word>, i: nat, w: Word): seq<Word>
    requires i < |t|
  {
    t[i := w]
  }

  ghost predicate Sized(tables: map<nat, seq<Word>>) {
    forall f :: f in tables ==> |tables[f]| == ENTRIES && f < PAGES
  }

  /** A directory entry is 0 or points to a page table, a different one each, and leaves
      it to the table's entries who may do what. */
  ghost predicate Ok(s: Paging) {
    && s.pd in s.tables && Sized(s.tables)
    && (forall i :: 0 <= i < ENTRIES && s.tables[s.pd][i] != 0 ==> TableAt(s, s.tables[s.pd][i]))
    && forall i, j :: 0 <= i < j < ENTRIES && s.tables[s.pd][i] != 0 && s.tables[s.pd][j] != 0 ==>
         Frame(s.tables[s.pd][i]) != Frame(s.tables[s.pd][j])
  }

  ghost predicate TableAt(s: Paging, pde: Word) {
    Bit(pde, P) && Bit(pde, W) && Bit(pde, U) && Frame(pde) in s.tables && Frame(pde) != s.pd
  }

  /** The directory entry for a page, and the page's table entry: 0 without a table. */
  ghost function Pde(s: Paging, page: nat): Word
    requires Ok(s) && page < PAGES
  {
    s.tables[s.pd][page / ENTRIES]
  }

  ghost function Pte(s: Paging, page: nat): Word
    requires Ok(s) && page < PAGES
  {
    if Pde(s, page) == 0 then 0 else assert TableAt(s, Pde(s, page)); s.tables[Frame(Pde(s, page))][page % ENTRIES]
  }

  /** What the processor makes of a user program's access to an address: both entries
      must be present and open to user programs, and for a write both writable; the
      result is a physical address, or else a page fault. */
  ghost function Translate(s: Paging, va: Word, write: bool): Option<nat>
    requires Ok(s) && PageNo(va) < PAGES
  {
    var pde, pte := Pde(s, PageNo(va)), Pte(s, PageNo(va));
    if Allows(pde, write) && Allows(pte, write) then Some(Frame(pte) * PGSIZE + va % PGSIZE) else None
  }

  predicate Allows(w: Word, write: bool) {
    Bit(w, P) && Bit(w, U) && (write ==> Bit(w, W))
  }

  /** The entry of the page decides. */
  lemma TableEntryDecides(s: Paging, va: Word, write: bool)
    requires Ok(s) && PageNo(va) < PAGES
    ensures Translate(s, va, write) ==
      if Allows(Pte(s, PageNo(va)), write) then Some(Frame(Pte(s, PageNo(va))) * PGSIZE + va % PGSIZE) else None
  {
    ZeroBits(P);
    if Pde(s, PageNo(va)) != 0 {
      assert TableAt(s, Pde(s, PageNo(va)));
    }
  }

  ghost predicate SameMap(s: Paging, s': Paging) {
    Ok(s) && Ok(s') && s'.pd == s.pd && forall p: nat :: p < PAGES ==> Pte(s', p) == Pte(s, p)
  }

  /** A new table of zeros changes no entry of the map. */
  lemma NewTableKeepsMap(s: Paging, i: nat, f: nat, zeros: seq<Word>)
    requires Ok(s) && i < ENTRIES && s.tables[s.pd][i] == 0 && f < PAGES && f !in s.tables
    requires |zeros| == ENTRIES && forall k :: 0 <= k < ENTRIES ==> zeros[k] == 0
    ensures SameMap(s, s.(tables := s.tables[f := zeros][s.pd := Stored(s.tables[s.pd], i, PdeCreate(f))]))
  {
    PdeCreateMeaning(f);
    var s' := s.(tables := s.tables[f := zeros][s.pd := Stored(s.tables[s.pd], i, PdeCreate(f))]);
    forall j | 0 <= j < ENTRIES && s'.tables[s.pd][j] != 0 ensures TableAt(s', s'.tables[s.pd][j]) {
      if j != i {
        assert TableAt(s, s.tables[s.pd][j]);
      }
    }
    forall j, k | 0 <= j < k < ENTRIES && s'.tables[s.pd][j] != 0 && s'.tables[s.pd][k] != 0
      ensures Frame(s'.tables[s.pd][j]) != Frame(s'.tables[s.pd][k])
    {
      if j != i {
        assert TableAt(s, s.tables[s.pd][j]);
      }
      if k != i {
        assert TableAt(s, s.tables[s.pd][k]);
      }
    }
  }

  /** Writing the entry of one page changes the entry of no other. */
  lemma WriteOneEntry(s: Paging, page: nat, w: Word)
    requires Ok(s) && page < PAGES && Pde(s, page) != 0
    ensures var t := Frame(Pde(s, page));
      && t in s.tables && |s.tables[t]| == ENTRIES
      && var s' := s.(tables := s.tables[t := Stored(s.tables[t], page % ENTRIES, w)]);
         && Ok(s') && s'.pd == s.pd
         && forall p: nat :: p < PAGES ==> Pte(s', p) == if p == page then w else Pte(s, p)
  {
    assert TableAt(s, Pde(s, page));
    var t := Frame(Pde(s, page));
    var s' := s.(tables := s.tables[t := Stored(s.tables[t], page % ENTRIES, w)]);
    forall j | 0 <= j < ENTRIES && s'.tables[s.pd][j] != 0 ensures TableAt(s', s'.tables[s.pd][j]) {
      assert TableAt(s, s.tables[s.pd][j]);
    }
    assert Ok(s');
    forall p: nat | p < PAGES ensures Pte(s', p) == if p == page then w else Pte(s, p) {
      OneEntry(s, s', page, p, w);
    }
  }

  lemma OneEntry(s: Paging, s': Paging, page: nat, p: nat, w: Word)
    requires Ok(s) && Ok(s') && page < PAGES && p < PAGES && Pde(s, page) != 0
    requires var t := Frame(Pde(s, page));
      && t in s.tables && |s.tables[t]| == ENTRIES && t != s.pd
      && s' == s.(tables := s.tables[t := Stored(s.tables[t], page % ENTRIES, w)])
    ensures Pte(s', p) == if p == page then w else Pte(s, p)
  {
    assert Pde(s', p) == Pde(s, p);
    if p / ENTRIES == page / ENTRIES {
      assert p == page <==> p % ENTRIES == page % ENTRIES;
    } else if Pde(s, p) != 0 {
      assert Frame(Pde(s, p)) != Frame(Pde(s, page));
    }
  }

  /** pd_no and pt_no of a virtual address, and its page. */
  function PdNo(va: Word): nat {
    va / (PGSIZE * ENTRIES)
  }

  function PtNo(va: Word): nat {
    va % (PGSIZE * ENTRIES) / PGSIZE
  }

  function PageNo(va: Word): nat {
    va / PGSIZE
  }

  lemma AddressParts(va: Word)
    ensures PageNo(va) < PAGES && PdNo(va) == PageNo(va) / ENTRIES && PtNo(va) == PageNo(va) % ENTRIES
    ensures PdNo(va) < ENTRIES && PtNo(va) < ENTRIES
    ensures va < PHYS_BASE <==> PdNo(va) < USER_PDES
  {
  }

  class PageDirectory {
    const pd: nat
    var tables: map<nat, seq<Word>>

    ghost function View(): Paging
      reads this
    {
      Paging(pd, tables)
    }

    ghost predicate Valid()
      reads this
    {
      Ok(View())
    }

    /** The entry of a page in the map. */
    ghost function Entry(page: nat): Word
      requires Valid() && page < PAGES
      reads this
    {
      Pte(View(), page)
    }

    /** pagedir_create, given a page frame and the kernel's page directory: no
        user page is mapped. */
    constructor (frame: nat, initPageDir: seq<Word>, kernelTables: map<nat, seq<Word>>)
      requires frame < PAGES && frame !in kernelTables && |initPageDir| == ENTRIES
      requires Ok(Paging(frame, kernelTables[frame := initPageDir]))
      requires forall i :: 0 <= i < USER_PDES ==> initPageDir[i] == 0
      ensures Valid() && forall p: nat :: p < USER_PDES * ENTRIES ==> Entry(p) == 0
    {
      pd := frame;
      tables := kernelTables[frame := initPageDir];
    }

    /** lookup_page without creating: the frame of the page table for an address,
        and the index of its entry there. */
    method FindSlot(va: Word) returns (r: Option<(nat, nat)>)
      requires Valid()
      ensures r.None? <==> Pde(View(), PageNo(va)) == 0
      ensures r.Some? ==> SlotOf(PageNo(va), r.value)
    {
      AddressParts(va);
      if tables[pd][PdNo(va)] == 0 {
        return None;
      }
      assert TableAt(View(), Pde(View(), PageNo(va)));
      r := Some((Frame(tables[pd][PdNo(va)]), PtNo(va)));
    }

    /** Where the entry of a page is. */
    ghost predicate SlotOf(page: nat, slot: (nat, nat))
      requires Valid() && page < PAGES
      reads this
    {
      && slot == (Frame(Pde(View(), page)), page % ENTRIES)
      && slot.0 in tables && |tables[slot.0]| == ENTRIES
      && tables[slot.0][slot.1] == Entry(page)
    }

    /** lookup_page.  spare is what palloc_get_page gives if it is called: a frame
        that holds no page table yet, or none. */
    method LookupPage(va: Word, create: bool, spare: Option<nat>) returns (r: Option<(nat, nat)>)
      requires Valid() && (create ==> va < PHYS_BASE)
      requires spare.Some? ==> spare.value < PAGES && spare.value !in tables
      modifies `tables
      ensures SameMap(old(View()), View()) && (!create ==> tables == old(tables))
      ensures r.None? <==> Pde(old(View()), PageNo(va)) == 0 && (!create || spare.None?)
      ensures r.None? ==> Pde(View(), PageNo(va)) == 0
      ensures r.None? || Pde(old(View()), PageNo(va)) != 0 ==> tables == old(tables)
      ensures r.Some? ==> Pde(View(), PageNo(va)) != 0 && SlotOf(PageNo(va), r.value)
    {
      r := FindSlot(va);
      if r.Some? || !create || spare.None? {
        return;
      }
      AddressParts(va);
      var pdNo, pt, zeros := PdNo(va), spare.value, seq(ENTRIES, _ => 0);
      NewTableKeepsMap(View(), pdNo, pt, zeros);
      PdeCreateMeaning(pt);
      tables := tables[pt := zeros][pd := Stored(tables[pd], pdNo, PdeCreate(pt))];
      r := FindSlot(va);
    }

    /** The store through the pointer that lookup_page returned. */
    method WriteEntry(ghost va: Word, slot: (nat, nat), w: Word)
      requires Valid() && Pde(View(), PageNo(va)) != 0
      requires slot == (Frame(Pde(View(), PageNo(va))), PageNo(va) % ENTRIES)
      requires slot.0 in tables && |tables[slot.0]| == ENTRIES
      modifies `tables
      ensures Valid() && Pde(View(), PageNo(va)) != 0
      ensures forall p: nat :: p < PAGES ==> Entry(p) == if p == PageNo(va) then w else old(Entry(p))
    {
      WriteOneEntry(View(), PageNo(va), w);
      assert TableAt(View(), Pde(View(), PageNo(va)));
      tables := tables[slot.0 := Stored(tables[slot.0], slot.1, w)];
    }

    /** pagedir_set_page: the page gets a fresh entry for the frame at kpage; when
        there is no memory for a page table nothing is mapped. */
    method SetPage(upage: Word, kpage: Word, writable: bool, spare: Option<nat>) returns (ok: bool)
      requires Valid() && upage % PGSIZE == 0 && upage < PHYS_BASE && kpage % PGSIZE == 0 && kpage >= PHYS_BASE
      requires !Bit(Entry(PageNo(upage)), P)
      requires spare.Some? ==> spare.value < PAGES && spare.value !in tables
      modifies `tables
      ensures Valid() && (ok <==> Pde(old(View()), PageNo(upage)) != 0 || spare.Some?)
      ensures forall p: nat :: p < PAGES ==>
        Entry(p) == if ok && p == PageNo(upage) then PteCreateUser(kpage, writable) else old(Entry(p))
    {
      var pte := LookupPage(upage, true, spare);
      if pte.None? {
        return false;
      }
      WriteEntry(upage, pte.value, PteCreateUser(kpage, writable));
      ok := true;
    }

    /** pagedir_get_page: the kernel virtual address behind a user address. */
    method GetPage(uaddr: Word) returns (r: Option<nat>)
      requires Valid() && uaddr < PHYS_BASE
      ensures r == if Bit(Entry(PageNo(uaddr)), P)
        then Some(Frame(Entry(PageNo(uaddr))) * PGSIZE + PHYS_BASE + uaddr % PGSIZE) else None
    {
      ZeroBits(P);
      var pte := FindSlot(uaddr);
      if pte.Some? && Bit(tables[pte.value.0][pte.value.1], P) {
        r := Some(Frame(tables[pte.value.0][pte.value.1]) * PGSIZE + PHYS_BASE + uaddr % PGSIZE);
      } else {
        r := None;
      }
    }

    /** Setting a flag of the entry of a page that has a table. */
    method SetFlag(va: Word, flag: nat, value: bool)
      requires Valid() && flag < 12
      modifies `tables
      ensures Valid()
      ensures forall p: nat :: p < PAGES ==>
        var changed := p == PageNo(va) && Pde(old(View()), p) != 0;
        Entry(p) == if changed then WithFlag(old(Entry(p)), flag, value) else old(Entry(p))
    {
      var pte := FindSlot(va);
      if pte.Some? {
        WriteEntry(va, pte.value, WithFlag(tables[pte.value.0][pte.value.1], flag, value));
      }
    }

    /** pagedir_clear_page: the page is not present any more, the other bits of
        its entry stay. */
    method ClearPage(upage: Word)
      requires Valid() && upage % PGSIZE == 0 && upage < PHYS_BASE
      modifies `tables
      ensures Valid()
      ensures forall p: nat :: p < PAGES ==>
        var changed := p == PageNo(upage) && Bit(old(Entry(p)), P);
        Entry(p) == if changed then WithFlag(old(Entry(p)), P, false) else old(Entry(p))
    {
      ZeroBits(P);
      var pte := FindSlot(upage);
      if pte.Some? && Bit(tables[pte.value.0][pte.value.1], P) {
        WriteEntry(upage, pte.value, WithFlag(tables[pte.value.0][pte.value.1], P, false));
      }
    }

    /** pagedir_is_dirty and pagedir_is_accessed. */
    method TestFlag(va: Word, flag: nat) returns (value: bool)
      requires Valid() && flag < 12
      ensures value == Bit(Entry(PageNo(va)), flag)
    {
      ZeroBits(flag);
      var pte := FindSlot(va);
      value := pte.Some? && Bit(tables[pte.value.0][pte.value.1], flag);
    }

    /** pagedir_destroy: the frames given to palloc_free_page, in order. */
    method Destroy() returns (freed: seq<nat>)
      requires Valid()
      ensures freed == Frames(View(), Owners(View(), USER_PDES) + [Directory])
    {
      freed := [];
      var i := 0;
      while i < USER_PDES
        invariant 0 <= i <= USER_PDES && freed == Frames(View(), Owners(View(), i))
      {
        if Bit(tables[pd][i], P) {
          freed := FreeTable(i, freed);
        } else {
          NoTableHere(View(), i);
        }
        i := i + 1;
      }
      FramesGrow(View(), Owners(View(), i), Directory);
      freed := freed + [pd];
    }

    /** The present pages of a page table and the table itself. */
    method FreeTable(i: nat, before: seq<nat>) returns (freed: seq<nat>)
      requires Valid() && i < ENTRIES && Bit(tables[pd][i], P) && before == Frames(View(), Owners(View(), i))
      ensures freed == Frames(View(), Owners(View(), i + 1))
    {
      ghost var done := Owners(View(), i);
      BitOfZero(tables[pd][i]);
      PageInTable(View(), i, 0);
      var pt := Frame(tables[pd][i]);
      freed := before;
      assert done + Mapped(View(), i, 0) == done;
      var j := 0;
      while j < ENTRIES
        invariant 0 <= j <= ENTRIES
        invariant freed == Frames(View(), done + Mapped(View(), i, j))
      {
        OneMoreFreed(View(), done, i, j);
        if Bit(tables[pt][j], P) {
          freed := freed + [Frame(tables[pt][j])];
        }
        j := j + 1;
      }
      FramesGrow(View(), done + Mapped(View(), i, j), Table(i));
      freed := freed + [pt];
    }
  }

  /** pagedir_set_page, then pagedir_get_page of an address in that page: the kernel
      address of the frame plus the offset.  A user program reads that frame there, and
      writes to it exactly if the page was made writable. */
  method SetThenGet(d: PageDirectory, upage: Word, kpage: Word, writable: bool, spare: Option<nat>, uaddr: Word)
    returns (ok: bool, r: Option<nat>)
    requires d.Valid() && upage % PGSIZE == 0 && upage < PHYS_BASE && kpage % PGSIZE == 0 && kpage >= PHYS_BASE
    requires !Bit(d.Entry(PageNo(upage)), P)
    requires spare.Some? ==> spare.value < PAGES && spare.value !in d.tables
    requires upage <= uaddr < upage + PGSIZE && uaddr < PHYS_BASE
    modifies d`tables
    ensures d.Valid() && (ok <==> Pde(old(d.View()), PageNo(upage)) != 0 || spare.Some?)
    ensures r == if ok then Some(kpage + (uaddr - upage)) else None
    ensures PageNo(uaddr) < PAGES
    ensures forall write ::
      Translate(d.View(), uaddr, write) == if ok && (write ==> writable) then Some(Vtop(kpage) + (uaddr - upage)) else None
  {
    hide Bit, Frame, PteCreateUser, PageNo, Ok, Pde, Pte, Translate;
    PteCreateMeaning(kpage, writable);
    SamePage(upage, uaddr);
    KernelAddress(kpage);
    ok := d.SetPage(upage, kpage, writable, spare);
    r := d.GetPage(uaddr);
    forall write ensures Translate(d.View(), uaddr, write) ==
      if ok && (write ==> writable) then Some(Vtop(kpage) + (uaddr - upage)) else None
    {
      TableEntryDecides(d.View(), uaddr, write);
    }
  }

  lemma KernelAddress(kpage: Word)
    requires kpage % PGSIZE == 0 && kpage >= PHYS_BASE
    ensures Vtop(kpage) / PGSIZE * PGSIZE + PHYS_BASE == kpage
  {
  }

  lemma SamePage(upage: Word, uaddr: Word)
    requires upage % PGSIZE == 0 && upage <= uaddr < upage + PGSIZE
    ensures PageNo(uaddr) == PageNo(upage) < PAGES && uaddr % PGSIZE == uaddr - upage
  {
  }

  // ---------------------------------------------------------------- destroy

  /** What a frame is freed for. */
  datatype Owner = Page(page: nat) | Table(i: nat) | Directory

  ghost predicate Named(o: Owner) {
    (o.Page? ==> o.page < PAGES) && (o.Table? ==> o.i < ENTRIES)
  }

  ghost function FrameOf(s: Paging, o: Owner): nat
    requires Ok(s) && Named(o)
  {
    match o
    case Page(p) => Frame(Pte(s, p))
    case Table(i) => Frame(s.tables[s.pd][i])
    case Directory => s.pd
  }

  /** The present pages of table i, of its first n entries. */
  ghost function Mapped(s: Paging, i: nat, n: nat): (r: seq<Owner>)
    requires Ok(s) && i < ENTRIES && n <= ENTRIES
    ensures forall o :: o in r ==> o.Page? && i * ENTRIES <= o.page < i * ENTRIES + n && Bit(Pte(s, o.page), P)
    ensures forall p: nat :: i * ENTRIES <= p < i * ENTRIES + n && Bit(Pte(s, p), P) ==> Page(p) in r
    ensures NoDup(r)
  {
    if n == 0 then []
    else if Bit(Pte(s, i * ENTRIES + (n - 1)), P) then Mapped(s, i, n - 1) + [Page(i * ENTRIES + (n - 1))]
    else Mapped(s, i, n - 1)
  }

  /** Everything freed on account of the first n directory entries. */
  ghost function Owners(s: Paging, n: nat): (r: seq<Owner>)
    requires Ok(s) && n <= ENTRIES
  {
    if n == 0 then []
    else if !Bit(s.tables[s.pd][n - 1], P) then Owners(s, n - 1)
    else Owners(s, n - 1) + Mapped(s, n - 1, ENTRIES) + [Table(n - 1)]
  }

  ghost predicate AllNamed(owners: seq<Owner>) {
    forall o :: o in owners ==> Named(o)
  }

  ghost function Frames(s: Paging, owners: seq<Owner>): (r: seq<nat>)
    requires Ok(s)
    ensures |r| == |owners|
  {
    if owners == [] then []
    else
      var last := owners[|owners| - 1];
      Frames(s, owners[..|owners| - 1]) + [if Named(last) then FrameOf(s, last) else 0]
  }

  lemma FramesGrow(s: Paging, owners: seq<Owner>, o: Owner)
    requires Ok(s) && Named(o)
    ensures Frames(s, owners + [o]) == Frames(s, owners) + [FrameOf(s, o)]
  {
    assert (owners + [o])[..|owners|] == owners;
  }

  lemma BitOfZero(w: Word)
    requires Bit(w, P)
    ensures w != 0
  {
    ZeroBits(P);
  }

  lemma PageInTable(s: Paging, i: nat, j: nat)
    requires Ok(s) && i < ENTRIES && j < ENTRIES && s.tables[s.pd][i] != 0
    ensures i * ENTRIES + j < PAGES
    ensures TableAt(s, s.tables[s.pd][i]) && Pte(s, i * ENTRIES + j) == s.tables[Frame(s.tables[s.pd][i])][j]
  {
    assert (i * ENTRIES + j) / ENTRIES == i && (i * ENTRIES + j) % ENTRIES == j;
    assert TableAt(s, s.tables[s.pd][i]);
  }

  lemma NoTableHere(s: Paging, i: nat)
    requires Ok(s) && i < ENTRIES && !Bit(s.tables[s.pd][i], P)
    ensures Owners(s, i + 1) == Owners(s, i)
  {
  }

  lemma OneMoreFreed(s: Paging, done: seq<Owner>, i: nat, j: nat)
    requires Ok(s) && i < ENTRIES && j < ENTRIES && s.tables[s.pd][i] != 0
    ensures TableAt(s, s.tables[s.pd][i])
    ensures var w := s.tables[Frame(s.tables[s.pd][i])][j]; var more := Frames(s, done + Mapped(s, i, j + 1));
      more == Frames(s, done + Mapped(s, i, j)) + if Bit(w, P) then [Frame(w)] else []
  {
    hide TableAt, Pde, Pte, Frames, Bit;
    PageInTable(s, i, j);
    MappedStep(s, i, j);
    var p := i * ENTRIES + j;
    if Bit(Pte(s, p), P) {
      FramesGrowAtEnd(s, done, Mapped(s, i, j), Page(p));
    }
  }

  lemma FramesGrowAtEnd(s: Paging, done: seq<Owner>, mapped: seq<Owner>, o: Owner)
    requires Ok(s) && Named(o)
    ensures Frames(s, done + (mapped + [o])) == Frames(s, done + mapped) + [FrameOf(s, o)]
  {
    FramesGrow(s, done + mapped, o);
    assert done + mapped + [o] == done + (mapped + [o]);
  }

  lemma MappedStep(s: Paging, i: nat, j: nat)
    requires Ok(s) && i < ENTRIES && j < ENTRIES && i * ENTRIES + j < PAGES
    ensures Mapped(s, i, j + 1) ==
      Mapped(s, i, j) + if Bit(Pte(s, i * ENTRIES + j), P) then [Page(i * ENTRIES + j)] else []
  {
  }

  /** What is freed on account of the directory entries below n: the present
      pages they map and their tables, each once. */
  lemma {:induction false} OwnersAre(s: Paging, n: nat)
    requires Ok(s) && n <= ENTRIES
    ensures NoDup(Owners(s, n))
    ensures forall p: nat :: Page(p) in Owners(s, n) <==> p < n * ENTRIES && Bit(Pte(s, p), P)
    ensures forall i: nat :: Table(i) in Owners(s, n) <==> i < n && Bit(s.tables[s.pd][i], P)
    ensures Directory !in Owners(s, n)
  {
    hide TableAt, Pde, Pte, Bit;
    if n > 0 {
      OwnersAre(s, n - 1);
      var before, mapped := Owners(s, n - 1), Mapped(s, n - 1, ENTRIES);
      if Bit(s.tables[s.pd][n - 1], P) {
        NoDupOfThree(before, mapped, Table(n - 1));
        forall o ensures o in Owners(s, n) <==> o in before || o in mapped || o == Table(n - 1) {
        }
      } else {
        NoTable(s, n - 1);
      }
    }
  }

  /** A page table is freed after all pages that it maps. */
  ghost predicate TablesLater(owners: seq<Owner>) {
    forall a, b :: 0 <= a < b < |owners| && owners[a].Table? && owners[b].Page? ==>
      owners[b].page / ENTRIES > owners[a].i
  }

  /** pagedir_destroy never looks into a page table that it has freed: the pages of a
      table go before the table, and the directory goes last. */
  lemma {:induction false} FreedAfterUse(s: Paging, n: nat)
    requires Ok(s) && n <= ENTRIES
    ensures TablesLater(Owners(s, n) + [Directory])
    ensures forall o :: o in Owners(s, n) ==>
      o != Directory && (o.Page? ==> o.page / ENTRIES < n) && (o.Table? ==> o.i < n)
  {
    hide TableAt, Pde, Pte, Bit;
    if n > 0 {
      FreedAfterUse(s, n - 1);
      var before, mapped := Owners(s, n - 1), Mapped(s, n - 1, ENTRIES);
      var all := Owners(s, n) + [Directory];
      if Bit(s.tables[s.pd][n - 1], P) {
        forall o | o in mapped ensures o.Page? && o.page / ENTRIES == n - 1 {
          assert (n - 1) * ENTRIES <= o.page < (n - 1) * ENTRIES + ENTRIES;
        }
        TableAfterPages(before, mapped, n - 1);
        assert Owners(s, n) == before + mapped + [Table(n - 1)];
      }
    }
  }

  lemma TableAfterPages(before: seq<Owner>, mapped: seq<Owner>, i: nat)
    requires TablesLater(before + [Directory])
    requires forall o :: o in before ==> o != Directory && (o.Page? ==> o.page / ENTRIES < i) && (o.Table? ==> o.i < i)
    requires forall o :: o in mapped ==> o.Page? && o.page / ENTRIES == i
    ensures TablesLater(before + mapped + [Table(i)] + [Directory])
    ensures forall o :: o in before + mapped + [Table(i)] ==> o in before || o in mapped || o == Table(i)
  {
    var all := before + mapped + [Table(i)] + [Directory];
    assert forall a :: 0 <= a < |before| ==> all[a] in before;
    assert forall a :: |before| <= a < |before| + |mapped| ==> all[a] in mapped;
    forall a, b | 0 <= a < b < |all| && all[a].Table? && all[b].Page? ensures all[b].page / ENTRIES > all[a].i {
      if b < |before| {
        assert (before + [Directory])[a] == all[a] && (before + [Directory])[b] == all[b];
      } else {
        assert b < |before| + |mapped|;
      }
    }
  }

  lemma NoDupOfThree(x: seq<Owner>, y: seq<Owner>, o: Owner)
    requires NoDup(x) && NoDup(y) && o !in x && o !in y && forall e :: e in x ==> e !in y
    ensures NoDup(x + y + [o])
  {
    var z := x + y;
    forall i, j | 0 <= i < j < |z| ensures z[i] != z[j] {
      if i < |x| <= j {
        assert x[i] in x && y[j - |x|] in y;
      }
    }
    forall i | 0 <= i < |z| ensures z[i] != o {
      assert if i < |x| then z[i] in x else z[i] in y;
    }
  }

  lemma NoTable(s: Paging, i: nat)
    requires Ok(s) && i < ENTRIES && !Bit(s.tables[s.pd][i], P)
    ensures forall p: nat :: i * ENTRIES <= p < (i + 1) * ENTRIES ==> !Bit(Pte(s, p), P)
  {
    ZeroBits(P);
    forall p: nat | i * ENTRIES <= p < (i + 1) * ENTRIES ensures !Bit(Pte(s, p), P) {
      assert p / ENTRIES == i;
      assert Pde(s, p) != 0 ==> TableAt(s, Pde(s, p));
    }
  }

  /** No two of these are freed with the same frame. */
  ghost predicate NoSharedFrame(s: Paging, owners: seq<Owner>)
    requires Ok(s) && AllNamed(owners)
  {
    forall o, o' :: o in owners && o' in owners && o != o' ==> FrameOf(s, o) != FrameOf(s, o')
  }

  lemma {:induction false} FrameAt(s: Paging, owners: seq<Owner>, k: nat)
    requires Ok(s) && AllNamed(owners) && k < |owners|
    ensures Frames(s, owners)[k] == FrameOf(s, owners[k])
  {
    var last, front := owners[|owners| - 1], owners[..|owners| - 1];
    assert last in owners;
    if k < |owners| - 1 {
      assert forall o :: o in front ==> o in owners;
      FrameAt(s, front, k);
    }
  }

  // Which mappings are freed once.

  ghost predicate UserPage(s: Paging, p: nat)
    requires Ok(s)
  {
    p < USER_PDES * ENTRIES && Bit(Pte(s, p), P)
  }

  ghost predicate UserTable(s: Paging, i: nat)
    requires Ok(s)
  {
    i < USER_PDES && Bit(s.tables[s.pd][i], P)
  }

  /** No frame is mapped at two user pages. */
  ghost predicate MappedOnce(s: Paging)
    requires Ok(s)
  {
    forall p: nat, q: nat :: UserPage(s, p) && UserPage(s, q) && p != q ==> Frame(Pte(s, p)) != Frame(Pte(s, q))
  }

  /** Neither the page directory nor the page table of user pages is mapped as a
      user page. */
  ghost predicate TablesUnmapped(s: Paging)
    requires Ok(s)
  {
    forall p: nat :: UserPage(s, p) ==>
      && Frame(Pte(s, p)) != s.pd
      && forall i: nat :: UserTable(s, i) ==> Frame(Pte(s, p)) != Frame(s.tables[s.pd][i])
  }

  /** pagedir_destroy frees every present user page, every page table of user
      pages and the directory.  Nothing is freed twice exactly when no frame is
      mapped twice and no page table or directory is mapped as a page; that page
      tables are different frames is part of every state. */
  lemma DestroyFreesEachOnce(s: Paging)
    requires Ok(s)
    ensures var owners := Owners(s, USER_PDES) + [Directory];
      && (forall p: nat :: Page(p) in owners <==> UserPage(s, p))
      && (forall i: nat :: Table(i) in owners <==> UserTable(s, i))
      && Directory in owners && NoDup(owners) && AllNamed(owners)
      && (NoDup(Frames(s, owners)) <==> MappedOnce(s) && TablesUnmapped(s))
  {
    OwnersAre(s, USER_PDES);
    var owners := Owners(s, USER_PDES) + [Directory];
    NoDupOfThree(Owners(s, USER_PDES), [], Directory);
    assert Owners(s, USER_PDES) + [] + [Directory] == owners;
    AllOwnersNamed(s, owners);
    DistinctFrames(s, owners);
    SharingIsMapping(s, owners);
  }

  /** Frames can be shared only by what the map says. */
  lemma SharingIsMapping(s: Paging, owners: seq<Owner>)
    requires Ok(s) && AllNamed(owners) && Directory in owners
    requires forall p: nat :: Page(p) in owners <==> UserPage(s, p)
    requires forall i: nat :: Table(i) in owners <==> UserTable(s, i)
    ensures NoSharedFrame(s, owners) <==> MappedOnce(s) && TablesUnmapped(s)
  {
    hide Pte, TableAt;
    if NoSharedFrame(s, owners) {
      forall p: nat, q: nat | UserPage(s, p) && UserPage(s, q) && p != q
        ensures Frame(Pte(s, p)) != Frame(Pte(s, q))
      {
        assert FrameOf(s, Page(p)) != FrameOf(s, Page(q));
      }
      forall p: nat | UserPage(s, p) ensures Frame(Pte(s, p)) != s.pd {
        assert FrameOf(s, Page(p)) != FrameOf(s, Directory);
      }
      forall p: nat, i: nat | UserPage(s, p) && UserTable(s, i)
        ensures Frame(Pte(s, p)) != Frame(s.tables[s.pd][i])
      {
        assert FrameOf(s, Page(p)) != FrameOf(s, Table(i));
      }
    }
    if MappedOnce(s) && TablesUnmapped(s) {
      forall o, o' | o in owners && o' in owners && o != o' ensures FrameOf(s, o) != FrameOf(s, o') {
        TablesDiffer(s, o, o');
      }
    }
  }

  /** Two page tables, and a page table and the directory, are different frames. */
  lemma TablesDiffer(s: Paging, o: Owner, o': Owner)
    requires Ok(s) && Named(o) && Named(o') && o != o' && MappedOnce(s) && TablesUnmapped(s)
    requires o.Page? ==> UserPage(s, o.page)
    requires o'.Page? ==> UserPage(s, o'.page)
    requires o.Table? ==> UserTable(s, o.i)
    requires o'.Table? ==> UserTable(s, o'.i)
    ensures FrameOf(s, o) != FrameOf(s, o')
  {
    hide Pte;
    if o.Table? {
      BitOfZero(s.tables[s.pd][o.i]);
      assert TableAt(s, s.tables[s.pd][o.i]);
    }
    if o'.Table? {
      BitOfZero(s.tables[s.pd][o'.i]);
      assert TableAt(s, s.tables[s.pd][o'.i]);
    }
  }

  /** Two user pages with one frame: it is freed at two places of the sequence. */
  lemma SharedFrameFreedTwice(s: Paging, p: nat, q: nat) returns (j: nat, k: nat)
    requires Ok(s) && UserPage(s, p) && UserPage(s, q) && p != q && Frame(Pte(s, p)) == Frame(Pte(s, q))
    ensures var freed := Frames(s, Owners(s, USER_PDES) + [Directory]);
      j < |freed| && k < |freed| && j != k && freed[j] == freed[k] == Frame(Pte(s, p))
  {
    hide Pte, Owners, Frames, MappedOnce, TablesUnmapped, UserTable, Bit;
    DestroyFreesEachOnce(s);
    var owners := Owners(s, USER_PDES) + [Directory];
    assert Page(p) in owners && Page(q) in owners;
    j :| 0 <= j < |owners| && owners[j] == Page(p);
    k :| 0 <= k < |owners| && owners[k] == Page(q);
    FrameAt(s, owners, j);
    FrameAt(s, owners, k);
  }

  /** A directory in frame 1 with one page table, in frame 2, whose first two entries
      are the same. */
  ghost function TwicePaging(pde: Word, pte: Word): Paging {
    Paging(1, map[1 := seq(ENTRIES, i => if i == 0 then pde else 0),
                  2 := seq(ENTRIES, i => if i < 2 then pte else 0)])
  }

  lemma TwicePagingMaps(pde: Word, pte: Word)
    requires Frame(pde) == 2 && Bit(pde, P) && Bit(pde, W) && Bit(pde, U) && pde != 0 && Bit(pte, P)
    ensures var s := TwicePaging(pde, pte);
      && Ok(s) && UserPage(s, 0) && UserPage(s, 1) && Pte(s, 0) == Pte(s, 1) == pte
  {
    hide Bit, Frame;
    var s := TwicePaging(pde, pte);
    assert TableAt(s, s.tables[s.pd][0]);
    PageInTable(s, 0, 0);
    PageInTable(s, 0, 1);
  }

  /** The input that shows it: frame 3 at user pages 0 and 1 is freed twice. */
  lemma DestroyCanFreeTwice() returns (j: nat, k: nat)
    ensures var s := TwicePaging(PdeCreate(2), PteCreateUser(PHYS_BASE + 3 * PGSIZE, true));
      && Ok(s)
      && var freed := Frames(s, Owners(s, USER_PDES) + [Directory]);
         j < |freed| && k < |freed| && j != k && freed[j] == freed[k] == 3
  {
    hide Ok, TwicePaging, UserPage, Frames, Owners, PdeCreate, PteCreateUser, Bit, Frame, Pte;
    PdeCreateMeaning(2);
    PteCreateMeaning(PHYS_BASE + 3 * PGSIZE, true);
    var pde, pte := PdeCreate(2), PteCreateUser(PHYS_BASE + 3 * PGSIZE, true);
    TwicePagingMaps(pde, pte);
    j, k := SharedFrameFreedTwice(TwicePaging(pde, pte), 0, 1);
  }

  lemma AllOwnersNamed(s: Paging, owners: seq<Owner>)
    requires forall p: nat :: Page(p) in owners ==> p < USER_PDES * ENTRIES
    requires forall i: nat :: Table(i) in owners ==> i < USER_PDES
    ensures AllNamed(owners)
  {
    forall o | o in owners ensures Named(o) {
      match o
      case Page(p) => assert Page(p) in owners;
      case Table(i) => assert Table(i) in owners;
      case Directory =>
    }
  }

  lemma DistinctFrames(s: Paging, owners: seq<Owner>)
    requires Ok(s) && AllNamed(owners) && NoDup(owners)
    ensures NoDup(Frames(s, owners)) <==> NoSharedFrame(s, owners)
  {
    hide Ok, Frames, FrameOf, Named;
    var frames := Frames(s, owners);
    forall k | 0 <= k < |owners| ensures frames[k] == FrameOf(s, owners[k]) && owners[k] in owners {
      FrameAt(s, owners, k);
    }
    if NoDup(frames) {
      forall o, o' | o in owners && o' in owners && o != o' ensures FrameOf(s, o) != FrameOf(s, o') {
        var j :| 0 <= j < |owners| && owners[j] == o;
        var k :| 0 <= k < |owners| && owners[k] == o';
        assert frames[j] != frames[k];
      }
    }
  }
}
