/**
 Loading the segments of an executable, in userprog/process.c: validate_segment,
 the arithmetic of load for a PT_LOAD header and load_segment.  Program headers
 are those of the Executable and Linking Format specification, chapter "Program
 Header".  All arithmetic is on 32-bit unsigned words.
 */
module ElfLoad {
  import opened Common

  function Plus(x: Word, y: Word): Word {
    (x + y) % TWO32
  }

  function Minus(x: Word, y: Word): Word {
    (x - y) % TWO32
  }

  /** ROUND_UP (x, PGSIZE) */
  function RoundUp(x: Word): Word {
    Plus(x, PGSIZE - 1) / PGSIZE * PGSIZE % TWO32
  }

  /** struct Elf32_Phdr, but for p_paddr and p_align, which load does not look at. */
  datatype Phdr = Phdr(ptype: Word, offset: Word, vaddr: Word, filesz: Word, memsz: Word, flags: Word)

  // Values of p_type, and a flag of p_flags.
  const PT_LOAD := 1
  const PT_DYNAMIC := 2
  const PT_INTERP := 3
  const PT_SHLIB := 5
  const PF_W := 2

  predicate Loadable(h: Phdr) {
    h.ptype == PT_LOAD
  }

  predicate Unsupported(h: Phdr) {
    h.ptype == PT_DYNAMIC || h.ptype == PT_INTERP || h.ptype == PT_SHLIB
  }

  predicate Writable(h: Phdr) {
    h.flags / PF_W % 2 == 1
  }

  /** validate_segment, for a file of that length. */
  predicate ValidateSegment(h: Phdr, fileLength: nat) {
    && h.offset % PGSIZE == h.vaddr % PGSIZE
    && h.offset <= fileLength
    && h.memsz >= h.filesz
    && h.memsz != 0
    && h.vaddr < PHYS_BASE
    && Plus(h.vaddr, h.memsz) < PHYS_BASE
    && Plus(h.vaddr, h.memsz) >= h.vaddr
    && h.vaddr >= PGSIZE
  }

  /** What load passes to load_segment. */
  datatype Segment = Segment(filePage: Word, memPage: Word, readBytes: Word, zeroBytes: Word)

  function SegmentOf(h: Phdr): Segment {
    var pageOffset := h.vaddr % PGSIZE;
    var filePage := h.offset - h.offset % PGSIZE;
    var memPage := h.vaddr - h.vaddr % PGSIZE;
    var end := RoundUp(Plus(pageOffset, h.memsz));
    if h.filesz > 0 then
      var readBytes := Plus(pageOffset, h.filesz);
      Segment(filePage, memPage, readBytes, Minus(end, readBytes))
    else
      Segment(filePage, memPage, 0, end)
  }

  lemma RoundUpMeaning(x: nat)
    requires x + PGSIZE <= TWO32
    ensures x <= RoundUp(x) < x + PGSIZE && RoundUp(x) % PGSIZE == 0
  {
    var q := (x + PGSIZE - 1) / PGSIZE;
    assert RoundUp(x) == q * PGSIZE;
  }

  /** A multiple of the page size above x is at least x rounded up. */
  lemma RoundUpIsLeast(x: nat, y: nat)
    requires x + PGSIZE <= TWO32 && x <= y && y % PGSIZE == 0
    ensures RoundUp(x) <= y
  {
    RoundUpMeaning(x);
  }

  lemma NoWrap(x: Word, y: Word)
    ensures x + y < TWO32 ==> Plus(x, y) == x + y
    ensures x >= y ==> Minus(x, y) == x - y
  {
  }

  /** In unbounded numbers: the segment is accepted exactly if it is not empty, its
      part of the file begins inside the file, and it ends below the kernel. */
  lemma ValidateExactly(h: Phdr, fileLength: nat)
    ensures ValidateSegment(h, fileLength) <==>
      && h.offset % PGSIZE == h.vaddr % PGSIZE && h.offset <= fileLength
      && h.filesz <= h.memsz && 0 < h.memsz
      && PGSIZE <= h.vaddr && h.vaddr + h.memsz < PHYS_BASE
  {
    if h.vaddr + h.memsz >= TWO32 {
      assert Plus(h.vaddr, h.memsz) == h.vaddr + h.memsz - TWO32;
    }
  }

  lemma AcceptedRange(h: Phdr, fileLength: nat)
    requires ValidateSegment(h, fileLength)
    ensures PGSIZE <= h.vaddr && 0 < h.memsz && h.filesz <= h.memsz && h.vaddr + h.memsz < PHYS_BASE
    ensures h.offset <= fileLength && h.offset % PGSIZE == h.vaddr % PGSIZE
  {
  }

  lemma PageStart(x: nat)
    ensures x - x % PGSIZE >= 0 && (x - x % PGSIZE) % PGSIZE == 0
    ensures x >= PGSIZE ==> x - x % PGSIZE >= PGSIZE
  {
  }

  /** A segment that is accepted wraps nowhere, meets the assertions of load_segment
      and of file_seek and lies in user pages other than page 0. */
  lemma AcceptedSegment(h: Phdr, fileLength: nat)
    requires ValidateSegment(h, fileLength) && fileLength < 0x8000_0000
    ensures h.vaddr + h.memsz < PHYS_BASE
    ensures var s := SegmentOf(h); var size := s.readBytes + s.zeroBytes;
      && size < TWO32 && size % PGSIZE == 0 && size > 0
      && s.memPage % PGSIZE == 0 && s.filePage % PGSIZE == 0 && s.filePage < 0x8000_0000
      && PGSIZE <= s.memPage && s.memPage + size <= PHYS_BASE
      && s.memPage <= h.vaddr && h.vaddr + h.memsz <= s.memPage + size < h.vaddr + h.memsz + PGSIZE
      && h.vaddr - s.memPage == h.vaddr % PGSIZE
      && s.readBytes == (if h.filesz > 0 then h.vaddr % PGSIZE + h.filesz else 0)
      && (h.filesz > 0 ==> h.offset - s.filePage == h.vaddr % PGSIZE)
  {
    AcceptedRange(h, fileLength);
    hide Plus, Minus, RoundUp, ValidateSegment;
    var pageOffset := h.vaddr % PGSIZE;
    PageStart(h.vaddr);
    PageStart(h.offset);
    NoWrap(pageOffset, h.memsz);
    NoWrap(pageOffset, h.filesz);
    RoundUpMeaning(pageOffset + h.memsz);
    RoundUpIsLeast(pageOffset + h.memsz, PHYS_BASE - (h.vaddr - pageOffset));
    NoWrap(RoundUp(pageOffset + h.memsz), pageOffset + h.filesz);
  }

  // ------------------------------------------------------------ user memory

  /** A page of user memory. */
  datatype Page = Page(bytes: seq<byte>, writable: bool)

  ghost predicate Sized(pages: map<nat, Page>) {
    forall p :: p in pages ==> |pages[p].bytes| == PGSIZE
  }

  /** The byte at a user address. */
  function ByteAt(pages: map<nat, Page>, addr: nat): Option<byte> {
    var p := addr / PGSIZE;
    if p in pages && addr % PGSIZE < |pages[p].bytes| then Some(pages[p].bytes[addr % PGSIZE]) else None
  }

  /** Byte k of a segment holds byte k of the file's part or, past got, a zero. */
  predicate ByteLoaded(pages: map<nat, Page>, file: seq<byte>, ofs: nat, upage: nat, got: nat, k: nat) {
    ByteAt(pages, upage + k) == Some(if k < got && ofs + k < |file| then file[ofs + k] else 0)
  }

  /** What load_segment promises: readBytes bytes of the file at upage, then zeros. */
  ghost predicate Loaded(pages: map<nat, Page>, file: seq<byte>, ofs: nat, upage: nat, readBytes: nat, size: nat,
                         writable: bool)
  {
    && (readBytes > 0 ==> ofs + readBytes <= |file|)
    && (forall k: nat :: k < size ==> ByteLoaded(pages, file, ofs, upage, readBytes, k))
    && forall p: nat :: upage <= p * PGSIZE < upage + size ==> p in pages && pages[p].writable == writable
  }

  /** Pages that were there before are as they were. */
  ghost predicate Extends(pages: map<nat, Page>, pages': map<nat, Page>) {
    forall p :: p in pages ==> p in pages' && pages'[p] == pages[p]
  }

  lemma ExtendsSelf(pages: map<nat, Page>)
    ensures Extends(pages, pages)
  {
  }

  lemma ExtendsTwice(pages: map<nat, Page>, pages': map<nat, Page>, pages'': map<nat, Page>)
    requires Extends(pages, pages') && Extends(pages', pages'')
    ensures Extends(pages, pages'')
  {
  }

  lemma LoadedStays(pages: map<nat, Page>, pages': map<nat, Page>, file: seq<byte>, ofs: nat, upage: nat,
                    readBytes: nat, size: nat, writable: bool)
    requires Loaded(pages, file, ofs, upage, readBytes, size, writable) && Extends(pages, pages')
    ensures Loaded(pages', file, ofs, upage, readBytes, size, writable)
  {
    forall k: nat | k < size ensures ByteLoaded(pages', file, ofs, upage, readBytes, k) {
      assert ByteLoaded(pages, file, ofs, upage, readBytes, k);
    }
  }

  /** The pages that lie in a range of addresses. */
  function PagesOf(upage: nat, size: nat): set<nat> {
    set p: nat | p < upage + size && upage <= p * PGSIZE < upage + size
  }

  /** The pages that hold a byte of a segment. */
  function PagesTouched(h: Phdr): set<nat> {
    Touched(h.vaddr, h.vaddr + h.memsz)
  }

  function Touched(start: nat, end: nat): set<nat> {
    set p: nat | p < end && p * PGSIZE < end && start < p * PGSIZE + PGSIZE
  }

  /** load_segment fills the pages that the segment touches and no others. */
  lemma SegmentPages(h: Phdr, fileLength: nat)
    requires ValidateSegment(h, fileLength) && fileLength < 0x8000_0000
    ensures var s := SegmentOf(h); PagesOf(s.memPage, s.readBytes + s.zeroBytes) == PagesTouched(h)
  {
    hide ValidateSegment, SegmentOf, PagesOf, Touched;
    AcceptedSegment(h, fileLength);
    var s := SegmentOf(h);
    var size := s.readBytes + s.zeroBytes;
    WholePages(s.memPage, size, h.vaddr, h.vaddr + h.memsz);
  }

  lemma WholePages(lo: nat, size: nat, start: nat, end: nat)
    requires lo % PGSIZE == 0 && size % PGSIZE == 0 && lo <= start < lo + PGSIZE && end <= lo + size < end + PGSIZE
    ensures PagesOf(lo, size) == Touched(start, end)
  {
    forall p: nat ensures p in PagesOf(lo, size) <==> p in Touched(start, end) {
      Multiples(p, lo, start, lo + size, end);
    }
  }

  lemma Multiples(p: nat, lo: nat, start: nat, hi: nat, end: nat)
    requires lo % PGSIZE == 0 && hi % PGSIZE == 0 && lo <= start < lo + PGSIZE && end <= hi < end + PGSIZE
    ensures lo <= p * PGSIZE <==> start < p * PGSIZE + PGSIZE
    ensures p * PGSIZE < hi <==> p * PGSIZE < end
  {
    var l, h := lo / PGSIZE, hi / PGSIZE;
    assert lo == l * PGSIZE && hi == h * PGSIZE;
  }

  /** The file's position is that of struct file.  Reads may come up short before
      the end of the file, unless it is reliable. */
  class ExecFile {
    const contents: seq<byte>
    const reliable: bool
    var pos: nat

    constructor (contents: seq<byte>, reliable: bool)
      ensures this.contents == contents && this.reliable == reliable && pos == 0
    {
      this.contents, this.reliable, pos := contents, reliable, 0;
    }

    /** file_read */
    method Read(n: nat) returns (data: seq<byte>)
      modifies this
      ensures |data| <= n && pos == old(pos) + |data|
      ensures data != [] ==> pos <= |contents| && data == contents[old(pos)..pos]
      ensures reliable && old(pos) + n <= |contents| ==> |data| == n
    {
      var got: int := *;
      if reliable {
        got := if pos + n <= |contents| then n else |contents| - pos;
      }
      if 0 <= got <= n && pos + got <= |contents| {
        data := contents[pos..pos + got];
      } else {
        data := [];
      }
      pos := pos + |data|;
    }
  }

  class Process {
    const memory: bool        // palloc_get_page never fails
    var pages: map<nat, Page>

    constructor (memory: bool)
      ensures pages == map[] && this.memory == memory
    {
      this.memory := memory;
      pages := map[];
    }

    ghost predicate Sound(file: ExecFile) {
      memory && file.reliable
    }

    /** install_page: it fails if the page is mapped already or there is no
        memory for a page table. */
    method InstallPage(upage: nat, page: Page) returns (ok: bool)
      requires upage % PGSIZE == 0
      modifies this
      ensures ok ==> upage / PGSIZE !in old(pages) && pages == old(pages)[upage / PGSIZE := page]
      ensures !ok ==> pages == old(pages)
      ensures memory && upage / PGSIZE !in old(pages) ==> ok
    {
      var available: bool := *;
      ok := (available || memory) && upage / PGSIZE !in pages;
      if ok {
        pages := pages[upage / PGSIZE := page];
      }
    }

    /** One round of load_segment's loop. */
    method LoadPage(file: ExecFile, upage: nat, pageReadBytes: nat, writable: bool) returns (ok: bool)
      requires upage % PGSIZE == 0 && pageReadBytes <= PGSIZE && Sized(pages)
      modifies this, file
      ensures Sized(pages) && Extends(old(pages), pages)
      ensures ok ==> file.pos == old(file.pos) + pageReadBytes
      ensures ok ==> Loaded(pages, file.contents, old(file.pos), upage, pageReadBytes, PGSIZE, writable)
      ensures ok ==> upage / PGSIZE !in old(pages) && pages.Keys == old(pages).Keys + {upage / PGSIZE}
      ensures !ok ==> pages == old(pages)
      ensures Sound(file) && InFile(file.contents, old(file.pos), pageReadBytes) && upage / PGSIZE !in old(pages) ==> ok
    {
      var available: bool := *;
      if !available && !memory {
        return false;
      }
      ghost var ofs := file.pos;
      var data := file.Read(pageReadBytes);
      if |data| != pageReadBytes {
        return false;
      }
      var page := Page(data + seq(PGSIZE - pageReadBytes, _ => 0), writable);
      ok := InstallPage(upage, page);
      if ok {
        OnePageLoaded(pages, file.contents, ofs, upage, pageReadBytes, writable, page);
      }
    }

    /** load_segment: it succeeds exactly if its part of the file is there, none of
        the pages is mapped already, and there is memory. */
    method LoadSegment(file: ExecFile, ofs: nat, upage: nat, readBytes: Word, zeroBytes: Word, writable: bool)
      returns (ok: bool)
      requires (readBytes + zeroBytes) % PGSIZE == 0 && upage % PGSIZE == 0 && ofs % PGSIZE == 0 && Sized(pages)
      modifies this, file
      ensures Sized(pages) && Extends(old(pages), pages)
      ensures ok ==> Loaded(pages, file.contents, ofs, upage, readBytes, readBytes + zeroBytes, writable)
      ensures ok ==> old(pages).Keys !! PagesOf(upage, readBytes + zeroBytes)
      ensures ok ==> pages.Keys == old(pages).Keys + PagesOf(upage, readBytes + zeroBytes)
      ensures Sound(file) && InFile(file.contents, ofs, readBytes) ==>
        (old(pages).Keys !! PagesOf(upage, readBytes + zeroBytes) ==> ok)
    {
      hide Loaded, PagesOf, Sized, Extends;
      ExtendsSelf(pages);
      NothingLoaded(pages, file.contents, ofs, upage, writable);
      file.pos := ofs;
      var read, zero, page := readBytes, zeroBytes, upage;
      ghost var done: nat := 0;
      while read > 0 || zero > 0
        invariant Sized(pages) && Extends(old(pages), pages) && zero >= 0
        invariant done % PGSIZE == 0 && page == upage + done && done + read + zero == readBytes + zeroBytes
        invariant read == if done < readBytes then readBytes - done else 0
        invariant file.pos == ofs + if done < readBytes then done else readBytes
        invariant Loaded(pages, file.contents, ofs, upage, if done < readBytes then done else readBytes, done, writable)
        invariant old(pages).Keys !! PagesOf(upage, done) && pages.Keys == old(pages).Keys + PagesOf(upage, done)
        decreases read + zero
      {
        var pageReadBytes := if read < PGSIZE then read else PGSIZE;
        var pageZeroBytes := PGSIZE - pageReadBytes;
        RoomForPage(readBytes + zeroBytes, done, read, zero);
        OnePageMore(upage, done, readBytes + zeroBytes);
        ghost var before := pages;
        ok := LoadPage(file, page, pageReadBytes, writable);
        if !ok {
          ExtendsTwice(old(pages), before, pages);
          return;
        }
        ExtendsTwice(old(pages), before, pages);
        NextPageLoaded(before, pages, file.contents, ofs, upage, readBytes, done, writable);
        read := read - pageReadBytes;
        zero := zero - pageZeroBytes;
        page := page + PGSIZE;
        done := done + PGSIZE;
      }
      assert done == readBytes + zeroBytes;
      assert Loaded(pages, file.contents, ofs, upage, readBytes, done, writable);
      ok := true;
    }

    /** The case PT_LOAD of load. */
    method LoadLoadable(file: ExecFile, h: Phdr) returns (ok: bool)
      requires Sized(pages) && |file.contents| < 0x8000_0000
      modifies this, file
      ensures Sized(pages) && Extends(old(pages), pages)
      ensures ok ==> LoadableOnto(old(pages).Keys, file.contents, h) && SegmentInMemory(pages, file.contents, h)
      ensures ok ==> pages.Keys == old(pages).Keys + PagesTouched(h)
      ensures Sound(file) && LoadableOnto(old(pages).Keys, file.contents, h) ==> ok
    {
      hide PagesOf, PagesTouched;
      ok := ValidateSegment(h, |file.contents|);
      if ok {
        AcceptedSegment(h, |file.contents|);
        SegmentPages(h, |file.contents|);
        var s := SegmentOf(h);
        ok := LoadSegment(file, s.filePage, s.memPage, s.readBytes, s.zeroBytes, Writable(h));
        if ok {
          LoadedSegment(pages, file.contents, h);
        }
      }
    }

    /** The loop of load over the program headers.  It succeeds exactly for
        acceptable headers if there is memory, and then every loadable segment, also
        an early one, is in memory. */
    method LoadAll(file: ExecFile, phdrs: seq<Phdr>) returns (ok: bool)
      requires Sized(pages) && |file.contents| < 0x8000_0000
      modifies this, file
      ensures Sized(pages) && Extends(old(pages), pages)
      ensures ok ==> Acceptable(old(pages).Keys, file.contents, phdrs, |phdrs|)
      ensures Sound(file) && Acceptable(old(pages).Keys, file.contents, phdrs, |phdrs|) ==> ok
      ensures ok ==> forall i :: 0 <= i < |phdrs| && Loadable(phdrs[i]) ==>
        SegmentInMemory(pages, file.contents, phdrs[i])
    {
      hide LoadableOnto, PagesTouched;
      for i := 0 to |phdrs|
        invariant Sized(pages) && Extends(old(pages), pages)
        invariant Acceptable(old(pages).Keys, file.contents, phdrs, i)
        invariant pages.Keys == AllTouched(old(pages).Keys, phdrs, i)
        invariant forall j :: 0 <= j < i && Loadable(phdrs[j]) ==> SegmentInMemory(pages, file.contents, phdrs[j])
      {
        AcceptableEarlier(old(pages).Keys, file.contents, phdrs, i);
        if Unsupported(phdrs[i]) {
          return false;
        } else if Loadable(phdrs[i]) {
          ghost var before := pages;
          ok := LoadLoadable(file, phdrs[i]);
          if !ok {
            return;
          }
          forall j | 0 <= j < i && Loadable(phdrs[j]) ensures SegmentInMemory(pages, file.contents, phdrs[j]) {
            SegmentStays(before, pages, file.contents, phdrs[j]);
          }
        }
      }
      ok := true;
    }
  }

  /** n bytes from ofs on are in the file. */
  predicate InFile(file: seq<byte>, ofs: nat, n: nat) {
    n > 0 ==> ofs + n <= |file|
  }

  /** The segment is valid, its bytes are in the file, and its pages are not taken. */
  ghost predicate LoadableOnto(taken: set<nat>, file: seq<byte>, h: Phdr) {
    ValidateSegment(h, |file|) && InFile(file, h.offset, h.filesz) && taken !! PagesTouched(h)
  }

  /** The pages taken once the first n headers are loaded. */
  ghost function AllTouched(taken: set<nat>, phdrs: seq<Phdr>, n: nat): set<nat>
    requires n <= |phdrs|
  {
    if n == 0 then taken
    else if Loadable(phdrs[n - 1]) then AllTouched(taken, phdrs, n - 1) + PagesTouched(phdrs[n - 1])
    else AllTouched(taken, phdrs, n - 1)
  }

  /** None of the first n headers is of an unsupported kind, and each loadable segment
      can be loaded onto pages that no other of them uses. */
  ghost predicate Acceptable(taken: set<nat>, file: seq<byte>, phdrs: seq<Phdr>, n: nat)
    requires n <= |phdrs|
  {
    forall i :: 0 <= i < n ==>
      && !Unsupported(phdrs[i])
      && (Loadable(phdrs[i]) ==> LoadableOnto(AllTouched(taken, phdrs, i), file, phdrs[i]))
  }

  lemma AcceptableEarlier(taken: set<nat>, file: seq<byte>, phdrs: seq<Phdr>, i: nat)
    requires i < |phdrs|
    ensures Acceptable(taken, file, phdrs, |phdrs|) ==>
      && !Unsupported(phdrs[i])
      && (Loadable(phdrs[i]) ==> LoadableOnto(AllTouched(taken, phdrs, i), file, phdrs[i]))
  {
  }

  /** Two acceptable segments never share a page. */
  lemma AcceptableApart(taken: set<nat>, file: seq<byte>, phdrs: seq<Phdr>, i: nat, j: nat)
    requires i < j < |phdrs| && Acceptable(taken, file, phdrs, |phdrs|)
    requires Loadable(phdrs[i]) && Loadable(phdrs[j])
    ensures PagesTouched(phdrs[i]) !! PagesTouched(phdrs[j])
  {
    TouchedGrows(taken, phdrs, i, j);
    assert LoadableOnto(AllTouched(taken, phdrs, j), file, phdrs[j]);
  }

  lemma {:induction false} TouchedGrows(taken: set<nat>, phdrs: seq<Phdr>, i: nat, j: nat)
    requires i < j <= |phdrs| && Loadable(phdrs[i])
    ensures PagesTouched(phdrs[i]) <= AllTouched(taken, phdrs, j)
  {
    hide PagesTouched;
    if i + 1 < j {
      TouchedGrows(taken, phdrs, i, j - 1);
    }
  }

  lemma OnePageMore(upage: nat, done: nat, size: nat)
    requires upage % PGSIZE == 0 && done % PGSIZE == 0 && size % PGSIZE == 0 && done < size
    ensures (upage + done) / PGSIZE !in PagesOf(upage, done)
    ensures (upage + done) / PGSIZE in PagesOf(upage, size)
    ensures PagesOf(upage, done + PGSIZE) == PagesOf(upage, done) + {(upage + done) / PGSIZE}
  {
    var u, d := upage / PGSIZE, done / PGSIZE;
    assert upage == u * PGSIZE && done == d * PGSIZE && (upage + done) / PGSIZE == u + d;
  }

  /** What the program header asks for: memsz bytes at vaddr, the first filesz of
      them those of the file at the offset and the others zero, on pages that can be
      written exactly if the header says so. */
  ghost predicate SegmentInMemory(pages: map<nat, Page>, file: seq<byte>, h: Phdr) {
    && (h.filesz > 0 ==> h.offset + h.filesz <= |file|)
    && (forall k: nat :: k < h.memsz ==> ByteLoaded(pages, file, h.offset, h.vaddr, h.filesz, k))
    && forall p :: p in PagesTouched(h) ==> p in pages && pages[p].writable == Writable(h)
  }

  /** load_segment with load's arithmetic loads the segment. */
  lemma LoadedSegment(pages: map<nat, Page>, file: seq<byte>, h: Phdr)
    requires |file| < 0x8000_0000 && ValidateSegment(h, |file|)
    requires var s := SegmentOf(h);
      Loaded(pages, file, s.filePage, s.memPage, s.readBytes, s.readBytes + s.zeroBytes, Writable(h))
    ensures SegmentInMemory(pages, file, h)
  {
    AcceptedSegment(h, |file|);
    var s := SegmentOf(h);
    forall k: nat | k < h.memsz ensures ByteLoaded(pages, file, h.offset, h.vaddr, h.filesz, k) {
      assert ByteLoaded(pages, file, s.filePage, s.memPage, s.readBytes, h.vaddr - s.memPage + k);
    }
    SegmentPages(h, |file|);
    forall p | p in PagesTouched(h) ensures p in pages && pages[p].writable == Writable(h) {
      assert p in PagesOf(s.memPage, s.readBytes + s.zeroBytes);
    }
  }

  lemma SegmentStays(pages: map<nat, Page>, pages': map<nat, Page>, file: seq<byte>, h: Phdr)
    requires SegmentInMemory(pages, file, h) && Extends(pages, pages')
    ensures SegmentInMemory(pages', file, h)
  {
    forall k: nat | k < h.memsz ensures ByteLoaded(pages', file, h.offset, h.vaddr, h.filesz, k) {
      assert ByteLoaded(pages, file, h.offset, h.vaddr, h.filesz, k);
    }
  }

  /** Nothing underflows: there is a whole page left to fill. */
  lemma RoomForPage(size: nat, done: nat, read: nat, zero: nat)
    requires size % PGSIZE == 0 && done % PGSIZE == 0 && done + read + zero == size && read + zero > 0
    ensures read + zero >= PGSIZE && (done + PGSIZE) % PGSIZE == 0
  {
  }

  lemma NothingLoaded(pages: map<nat, Page>, file: seq<byte>, ofs: nat, upage: nat, writable: bool)
    ensures Loaded(pages, file, ofs, upage, 0, 0, writable) && PagesOf(upage, 0) == {}
  {
  }

  lemma OnePageLoaded(pages: map<nat, Page>, file: seq<byte>, ofs: nat, upage: nat, readBytes: nat, writable: bool,
                      page: Page)
    requires upage % PGSIZE == 0 && readBytes <= PGSIZE && upage / PGSIZE in pages && pages[upage / PGSIZE] == page
    requires readBytes > 0 ==> ofs + readBytes <= |file|
    requires page.writable == writable && |page.bytes| == PGSIZE
    requires forall k :: 0 <= k < PGSIZE ==> page.bytes[k] == if k < readBytes then file[ofs + k] else 0
    ensures Loaded(pages, file, ofs, upage, readBytes, PGSIZE, writable)
  {
    forall k: nat | k < PGSIZE ensures ByteLoaded(pages, file, ofs, upage, readBytes, k) {
      assert (upage + k) / PGSIZE == upage / PGSIZE && (upage + k) % PGSIZE == k;
    }
  }

  /** One page more of a segment. */
  lemma NextPageLoaded(pages: map<nat, Page>, pages': map<nat, Page>, file: seq<byte>, ofs: nat, upage: nat,
                       readBytes: nat, done: nat, writable: bool)
    requires Extends(pages, pages') && done % PGSIZE == 0 && upage % PGSIZE == 0
    requires var got := if done < readBytes then done else readBytes;
      var left := readBytes - got; var more := if left < PGSIZE then left else PGSIZE;
      && Loaded(pages, file, ofs, upage, got, done, writable)
      && Loaded(pages', file, ofs + got, upage + done, more, PGSIZE, writable)
    ensures var done' := done + PGSIZE;
      Loaded(pages', file, ofs, upage, if done' < readBytes then done' else readBytes, done', writable)
  {
    var got := if done < readBytes then done else readBytes;
    LoadedStays(pages, pages', file, ofs, upage, got, done, writable);
    var got' := if done + PGSIZE < readBytes then done + PGSIZE else readBytes;
    forall k: nat | k < done + PGSIZE ensures ByteLoaded(pages', file, ofs, upage, got', k) {
      if k < done {
        assert ByteLoaded(pages', file, ofs, upage, got, k);
      } else {
        assert ByteLoaded(pages', file, ofs + got, upage + done, got' - got, k - done);
      }
    }
  }
}
