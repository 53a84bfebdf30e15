/**
 The file system of filesys/ as a value: which sectors are in use, the inodes
 on the disk, the root directory, the open inodes and the open files.
 */
module FsModel {
  import opened Bitmap
  import opened Common
  import opened InodeIO

  const FREE_MAP_SECTOR := 0
  const ROOT_DIR_SECTOR := 1
  const NAME_MAX := 14

  /** struct inode_disk */
  datatype DiskInode = DiskInode(start: nat, length: nat)

  /** struct dir_entry */
  datatype Entry = Entry(inUse: bool, name: string, sector: nat)

  /** struct inode */
  datatype OpenInode = OpenInode(sector: nat, openCnt: nat, denyWriteCnt: nat, removed: bool, data: DiskInode)

  /** struct file, or struct dir, which never denies writes. */
  datatype File = File(inode: nat, denyWrite: bool)

  /** Inodes in memory and files are named by their addresses. */
  datatype Fs = Fs(
    used: set<nat>,               // the free map
    disk: map<nat, DiskInode>,    // sectors that inode_create has written
    entries: seq<Entry>,          // the root directory
    openInodes: seq<nat>,         // the list open_inodes
    inodes: map<nat, OpenInode>,
    files: map<nat, File>,
    intact: bool)                 // no scan of the directory has done harm so far

  // ------------------------------------------------------- handle accounting

  /** References to open inodes that a call in progress holds besides the files. */
  type Refs = multiset<nat>

  function HandlesOn(files: map<nat, File>, id: nat): set<nat> {
    set f | f in files && files[f].inode == id
  }

  function DenyingOn(files: map<nat, File>, id: nat): set<nat> {
    set f | f in files && files[f].inode == id && files[f].denyWrite
  }

  /** Inode n, named id, counts its references. */
  ghost predicate CountsOk(n: OpenInode, files: map<nat, File>, id: nat, extra: Refs) {
    && n.openCnt == |HandlesOn(files, id)| + extra[id]
    && n.openCnt > 0
    && n.denyWriteCnt == |DenyingOn(files, id)|
  }

  ghost predicate Counts(inodes: map<nat, OpenInode>, files: map<nat, File>, extra: Refs) {
    && (forall id :: id in inodes ==> CountsOk(inodes[id], files, id, extra))
    && (forall f :: f in files ==> files[f].inode in inodes)
    && (forall id :: id in extra ==> id in inodes)
  }

  /** open_inodes lists every open inode once, and no sector twice. */
  ghost predicate Listed(openInodes: seq<nat>, inodes: map<nat, OpenInode>) {
    && NoDup(openInodes)
    && (forall id :: id in openInodes <==> id in inodes)
    && forall i, j :: i in inodes && j in inodes && i != j ==> inodes[i].sector != inodes[j].sector
  }

  /** Sectors of files in the root directory. */
  function Named(entries: seq<Entry>): set<nat> {
    set i | 0 <= i < |entries| && entries[i].inUse :: entries[i].sector
  }

  /** Inodes that are there to stay: those with a name and the two that the
      file system itself needs. */
  function Kept(entries: seq<Entry>): set<nat> {
    Named(entries) + {FREE_MAP_SECTOR, ROOT_DIR_SECTOR}
  }

  /** An open inode holds what is on the disk, and is not kept if it is marked
      removed.  As long as nothing has done harm this is the only way to lose a name. */
  ghost predicate Faithful(inodes: map<nat, OpenInode>, disk: map<nat, DiskInode>, kept: set<nat>, intact: bool) {
    forall id :: id in inodes ==>
      var n := inodes[id];
      && n.sector in disk && n.data == disk[n.sector]
      && (n.removed ==> n.sector !in kept)
      && (intact && n.sector !in kept ==> n.removed)
  }

  // -------------------------------------------------------- sector ownership

  /** The data sectors of an inode. */
  function Data(inode: DiskInode): set<nat> {
    Run(inode.start, BytesToSectors(inode.length))
  }

  /** An inode without data starts at sector 0: that is where a run of no
      sectors is found. */
  predicate Placed(inode: DiskInode) {
    BytesToSectors(inode.length) == 0 ==> inode.start == 0
  }

  /** The header sector of an inode and its data sectors. */
  function Extent(disk: map<nat, DiskInode>, h: nat): set<nat>
    requires h in disk
  {
    {h} + Data(disk[h])
  }

  function OpenSectors(inodes: map<nat, OpenInode>): set<nat> {
    set id | id in inodes :: inodes[id].sector
  }

  /** The inodes that own sectors: those that are kept or open. */
  function Owners(s: Fs): set<nat> {
    Kept(s.entries) + OpenSectors(s.inodes)
  }

  /** Owners are on the disk, their sectors are used, and nobody shares one. */
  ghost predicate Ownership(disk: map<nat, DiskInode>, owners: set<nat>, used: set<nat>) {
    && (forall h :: h in owners ==> h in disk && Placed(disk[h]) && h !in Data(disk[h]) && Extent(disk, h) <= used)
    && (forall h, g :: h in owners && g in owners && h != g ==> Extent(disk, h) !! Extent(disk, g))
  }

  // ---------------------------------------------------------- the directory

  predicate ValidName(name: string) {
    0 < |name| <= NAME_MAX
  }

  ghost predicate EntryOk(e: Entry) {
    e.inUse ==> ValidName(e.name) && e.sector != FREE_MAP_SECTOR && e.sector != ROOT_DIR_SECTOR
  }

  /** Every entry has its own inode, and as long as nothing has done harm its own name. */
  ghost predicate DirOk(entries: seq<Entry>, intact: bool) {
    && (forall i :: 0 <= i < |entries| ==> EntryOk(entries[i]))
    && (forall i, j :: 0 <= i < j < |entries| && entries[i].inUse && entries[j].inUse ==>
          entries[i].sector != entries[j].sector)
    && (intact ==> NamesUnique(entries))
  }

  ghost predicate NamesUnique(entries: seq<Entry>) {
    forall i, j :: 0 <= i < j < |entries| && entries[i].inUse && entries[j].inUse ==> entries[i].name != entries[j].name
  }

  ghost predicate Inv(s: Fs, extra: Refs) {
    && Counts(s.inodes, s.files, extra)
    && Listed(s.openInodes, s.inodes)
    && Faithful(s.inodes, s.disk, Kept(s.entries), s.intact)
    && Ownership(s.disk, Owners(s), s.used)
    && DirOk(s.entries, s.intact)
  }

  // -------------------------------------------------------------- reopening

  function Reopened(s: Fs, id: nat): Fs
    requires id in s.inodes
  {
    s.(inodes := s.inodes[id := s.inodes[id].(openCnt := s.inodes[id].openCnt + 1)])
  }

  /** The same sectors are open. */
  lemma SameOpen(inodes: map<nat, OpenInode>, inodes': map<nat, OpenInode>)
    requires inodes'.Keys == inodes.Keys
    requires forall id :: id in inodes ==> inodes'[id].sector == inodes[id].sector
    ensures OpenSectors(inodes') == OpenSectors(inodes)
  {
    forall x ensures x in OpenSectors(inodes') <==> x in OpenSectors(inodes) {
      if id :| id in inodes && inodes[id].sector == x {
        assert inodes'[id].sector == x;
      }
      if id :| id in inodes' && inodes'[id].sector == x {
        assert inodes[id].sector == x;
      }
    }
  }

  /** Only the counts of an open inode change. */
  lemma CountsChange(s: Fs, id: nat, n: OpenInode)
    requires id in s.inodes
    requires n.sector == s.inodes[id].sector && n.data == s.inodes[id].data && n.removed == s.inodes[id].removed
    requires Listed(s.openInodes, s.inodes) && Faithful(s.inodes, s.disk, Kept(s.entries), s.intact)
    ensures Listed(s.openInodes, s.inodes[id := n]) && Faithful(s.inodes[id := n], s.disk, Kept(s.entries), s.intact)
    ensures OpenSectors(s.inodes[id := n]) == OpenSectors(s.inodes)
  {
    SameOpen(s.inodes, s.inodes[id := n]);
  }

  lemma CountsChangeKeeps(s: Fs, extra: Refs, id: nat, n: OpenInode, files: map<nat, File>, extra': Refs)
    requires Inv(s, extra) && id in s.inodes
    requires n.sector == s.inodes[id].sector && n.data == s.inodes[id].data && n.removed == s.inodes[id].removed
    requires Counts(s.inodes[id := n], files, extra')
    ensures var s' := s.(inodes := s.inodes[id := n], files := files); Inv(s', extra') && Owners(s') == Owners(s)
  {
    CountsChange(s, id, n);
  }

  lemma ReopenKeeps(s: Fs, id: nat)
    requires Inv(s, multiset{}) && id in s.inodes
    ensures Inv(Reopened(s, id), multiset{id}) && Owners(Reopened(s, id)) == Owners(s)
  {
    ReopenCounts(s.inodes, s.files, id);
    CountsChangeKeeps(s, multiset{}, id, Reopened(s, id).inodes[id], s.files, multiset{id});
  }

  lemma ReopenCounts(inodes: map<nat, OpenInode>, files: map<nat, File>, id: nat)
    requires Counts(inodes, files, multiset{}) && id in inodes
    ensures Counts(inodes[id := inodes[id].(openCnt := inodes[id].openCnt + 1)], files, multiset{id})
  {
    assert CountsOk(inodes[id], files, id, multiset{});
  }

  /** A new struct inode for a sector that has none; it must be a kept one. */
  function Opened(s: Fs, id: nat, sector: nat): Fs
    requires sector in s.disk
  {
    s.(openInodes := [id] + s.openInodes, inodes := s.inodes[id := OpenInode(sector, 1, 0, false, s.disk[sector])])
  }

  lemma OneMoreOpen(inodes: map<nat, OpenInode>, id: nat, n: OpenInode)
    requires id !in inodes
    ensures OpenSectors(inodes[id := n]) == OpenSectors(inodes) + {n.sector}
  {
    var inodes' := inodes[id := n];
    forall x ensures x in OpenSectors(inodes') <==> x in OpenSectors(inodes) || x == n.sector {
      if i :| i in inodes && inodes[i].sector == x {
        assert inodes'[i].sector == x;
      }
      if x == n.sector {
        assert inodes'[id].sector == x;
      }
    }
  }

  lemma OpenKeeps(s: Fs, id: nat, sector: nat)
    requires Inv(s, multiset{}) && id !in s.inodes && sector in Kept(s.entries)
    requires forall i :: i in s.inodes ==> s.inodes[i].sector != sector
    ensures sector in s.disk && Inv(Opened(s, id, sector), multiset{id}) && Owners(Opened(s, id, sector)) == Owners(s)
  {
    hide Counts, Listed, Faithful, DirOk;
    assert sector in Owners(s);
    var s' := Opened(s, id, sector);
    OneMoreOpen(s.inodes, id, s'.inodes[id]);
    assert Owners(s') == Owners(s);
    OpenCounts(s.inodes, s.files, id, s'.inodes[id]);
    ListedMore(s, s', id);
    FaithfulMore(s.inodes, id, s'.inodes[id], s.disk, Kept(s.entries), s.intact);
  }

  lemma FaithfulMore(inodes: map<nat, OpenInode>, id: nat, n: OpenInode, disk: map<nat, DiskInode>, kept: set<nat>,
                     intact: bool)
    requires Faithful(inodes, disk, kept, intact)
    requires n.sector in disk && n.data == disk[n.sector] && (n.removed <==> n.sector !in kept)
    ensures Faithful(inodes[id := n], disk, kept, intact)
  {
  }

  lemma OpenCounts(inodes: map<nat, OpenInode>, files: map<nat, File>, id: nat, n: OpenInode)
    requires Counts(inodes, files, multiset{}) && id !in inodes && n.openCnt == 1 && n.denyWriteCnt == 0
    ensures Counts(inodes[id := n], files, multiset{id})
  {
    assert HandlesOn(files, id) == {} && DenyingOn(files, id) == {};
    var inodes' := inodes[id := n];
    forall i | i in inodes' ensures CountsOk(inodes'[i], files, i, multiset{id}) {
      assert i != id ==> CountsOk(inodes[i], files, i, multiset{});
    }
  }

  lemma ListedMore(s: Fs, s': Fs, id: nat)
    requires Listed(s.openInodes, s.inodes) && id !in s.inodes && s'.openInodes == [id] + s.openInodes
    requires id in s'.inodes && s'.inodes == s.inodes[id := s'.inodes[id]]
    requires forall i :: i in s.inodes ==> s.inodes[i].sector != s'.inodes[id].sector
    ensures Listed(s'.openInodes, s'.inodes)
  {
  }

  // ------------------------------------------------------- files and handles

  /** file_open or dir_open takes over the reference. */
  function Attached(s: Fs, f: nat, id: nat): Fs {
    s.(files := s.files[f := File(id, false)])
  }

  lemma AttachKeeps(s: Fs, f: nat, id: nat)
    requires Inv(s, multiset{id}) && f !in s.files
    ensures Inv(Attached(s, f, id), multiset{}) && Owners(Attached(s, f, id)) == Owners(s)
  {
    AttachCounts(s.inodes, s.files, f, id);
  }

  lemma AttachCounts(inodes: map<nat, OpenInode>, files: map<nat, File>, f: nat, id: nat)
    requires Counts(inodes, files, multiset{id}) && f !in files
    ensures Counts(inodes, files[f := File(id, false)], multiset{})
  {
    var files' := files[f := File(id, false)];
    forall i | i in inodes ensures CountsOk(inodes[i], files', i, multiset{}) {
      assert CountsOk(inodes[i], files, i, multiset{id});
      AttachHandles(files, f, id, i);
      OneMore(HandlesOn(files, i), f);
    }
  }

  lemma OneMore<T>(x: set<T>, e: T)
    ensures |x + {e}| == |x| + if e in x then 0 else 1
  {
    if e in x {
      assert x + {e} == x;
    }
  }

  lemma AttachHandles(files: map<nat, File>, f: nat, id: nat, i: nat)
    requires f !in files
    ensures var files' := files[f := File(id, false)];
      && DenyingOn(files', i) == DenyingOn(files, i)
      && HandlesOn(files', i) == (if i == id then HandlesOn(files, i) + {f} else HandlesOn(files, i))
      && f !in HandlesOn(files, i)
  {
  }

  /** The file is gone and its reference is on its own again. */
  function Detached(s: Fs, f: nat): Fs {
    s.(files := s.files - {f})
  }

  lemma DetachKeeps(s: Fs, extra: Refs, f: nat)
    requires Inv(s, extra) && f in s.files && !s.files[f].denyWrite
    ensures Inv(Detached(s, f), extra + multiset{s.files[f].inode}) && Owners(Detached(s, f)) == Owners(s)
  {
    hide Counts, Listed, Faithful, DirOk, Ownership;
    DetachCounts(s.inodes, s.files, extra, f);
  }

  lemma DetachCounts(inodes: map<nat, OpenInode>, files: map<nat, File>, extra: Refs, f: nat)
    requires Counts(inodes, files, extra) && f in files && !files[f].denyWrite
    ensures Counts(inodes, files - {f}, extra + multiset{files[f].inode})
  {
    var files', id := files - {f}, files[f].inode;
    forall i | i in inodes ensures CountsOk(inodes[i], files', i, extra + multiset{id}) {
      assert CountsOk(inodes[i], files, i, extra);
      DetachHandles(files, f, i);
      OneMore(HandlesOn(files', i), f);
    }
  }

  lemma DetachHandles(files: map<nat, File>, f: nat, i: nat)
    requires f in files && !files[f].denyWrite
    ensures var files' := files - {f};
      && DenyingOn(files', i) == DenyingOn(files, i)
      && HandlesOn(files, i) == (if i == files[f].inode then HandlesOn(files', i) + {f} else HandlesOn(files', i))
      && f !in HandlesOn(files', i)
  {
  }

  /** file_deny_write or file_allow_write, with the count on the inode. */
  function Denied(s: Fs, f: nat, deny: bool): Fs
    requires f in s.files && s.files[f].inode in s.inodes && s.files[f].denyWrite == !deny
    requires deny || s.inodes[s.files[f].inode].denyWriteCnt > 0
  {
    var id := s.files[f].inode;
    var n := s.inodes[id];
    s.(files := s.files[f := File(id, deny)],
       inodes := s.inodes[id := n.(denyWriteCnt := if deny then n.denyWriteCnt + 1 else n.denyWriteCnt - 1)])
  }

  lemma DenyCount(s: Fs, f: nat)
    requires Counts(s.inodes, s.files, multiset{}) && f in s.files
    ensures var n := s.inodes[s.files[f].inode];
      && n.denyWriteCnt <= n.openCnt
      && (s.files[f].denyWrite ==> n.denyWriteCnt > 0)
      && (!s.files[f].denyWrite ==> n.denyWriteCnt < n.openCnt)
  {
    var id := s.files[f].inode;
    assert CountsOk(s.inodes[id], s.files, id, multiset{});
    var d, h := DenyingOn(s.files, id), HandlesOn(s.files, id);
    SubsetSize(d, h);
    if s.files[f].denyWrite {
      assert f in d;
    } else {
      assert f in h && f !in d;
      SubsetSize(d, h - {f});
    }
  }

  lemma DenyKeeps(s: Fs, f: nat, deny: bool)
    requires Inv(s, multiset{}) && f in s.files && s.files[f].denyWrite == !deny
    ensures deny || s.inodes[s.files[f].inode].denyWriteCnt > 0
    ensures Inv(Denied(s, f, deny), multiset{}) && Owners(Denied(s, f, deny)) == Owners(s)
  {
    DenyCount(s, f);
    var id := s.files[f].inode;
    var s' := Denied(s, f, deny);
    DenyCounts(s.inodes, s.files, f, deny, s'.inodes[id]);
    CountsChangeKeeps(s, multiset{}, id, s'.inodes[id], s'.files, multiset{});
    assert s' == s.(inodes := s.inodes[id := s'.inodes[id]], files := s'.files);
  }

  lemma DenyHandles(files: map<nat, File>, f: nat, deny: bool, i: nat)
    requires f in files && files[f].denyWrite == !deny
    ensures var files' := files[f := File(files[f].inode, deny)]; var d, d' := DenyingOn(files, i), DenyingOn(files', i);
      && HandlesOn(files', i) == HandlesOn(files, i)
      && (if i != files[f].inode then d' == d else if deny then d' == d + {f} && f !in d else d == d' + {f} && f !in d')
  {
  }

  lemma DenyCounts(inodes: map<nat, OpenInode>, files: map<nat, File>, f: nat, deny: bool, n: OpenInode)
    requires Counts(inodes, files, multiset{}) && f in files && files[f].denyWrite == !deny
    requires var o := inodes[files[f].inode];
      n.openCnt == o.openCnt && n.denyWriteCnt == if deny then o.denyWriteCnt + 1 else o.denyWriteCnt - 1
    ensures Counts(inodes[files[f].inode := n], files[f := File(files[f].inode, deny)], multiset{})
  {
    var id := files[f].inode;
    var inodes', files' := inodes[id := n], files[f := File(id, deny)];
    forall i | i in inodes' ensures CountsOk(inodes'[i], files', i, multiset{}) {
      assert CountsOk(inodes[i], files, i, multiset{});
      DenyHandles(files, f, deny, i);
      OneMore(DenyingOn(files, i), f);
      OneMore(DenyingOn(files', i), f);
    }
  }

  /** Writes to an inode are refused exactly while some file on it denies them,
      and no more files deny than have it open. */
  lemma RefusedExactlyWhileDenied(s: Fs, id: nat)
    requires Counts(s.inodes, s.files, multiset{}) && id in s.inodes
    ensures s.inodes[id].denyWriteCnt > 0 <==>
      exists f :: f in s.files && s.files[f].inode == id && s.files[f].denyWrite
    ensures s.inodes[id].denyWriteCnt <= s.inodes[id].openCnt == |HandlesOn(s.files, id)|
  {
    assert CountsOk(s.inodes[id], s.files, id, multiset{});
    SubsetSize(DenyingOn(s.files, id), HandlesOn(s.files, id));
    if s.inodes[id].denyWriteCnt > 0 {
      assert DenyingOn(s.files, id) != {};
      var f :| f in DenyingOn(s.files, id);
    }
    if f :| f in s.files && s.files[f].inode == id && s.files[f].denyWrite {
      assert f in DenyingOn(s.files, id);
    }
  }

  // ---------------------------------------------------------------- closing

  /** inode_close by the holder of the extra reference: the last one takes the
      inode off the list and, if it was removed, frees its sectors. */
  function Closed(s: Fs, id: nat): Fs
    requires id in s.inodes && s.inodes[id].openCnt > 0 && s.inodes[id].sector in s.disk
  {
    var n := s.inodes[id];
    if n.openCnt > 1 then
      s.(inodes := s.inodes[id := n.(openCnt := n.openCnt - 1)])
    else
      s.(openInodes := Without(s.openInodes, id),
         inodes := s.inodes - {id},
         used := if n.removed then s.used - Extent(s.disk, n.sector) else s.used)
  }

  /** Does closing this reference free the sectors of a removed file? */
  predicate Frees(n: OpenInode) {
    n.openCnt == 1 && n.removed
  }

  /** Is this the last reference of any kind to the inode? */
  predicate LastOf(s: Fs, id: nat)
    requires id in s.inodes
  {
    s.inodes[id].openCnt == 1 && s.inodes[id].sector !in Kept(s.entries)
  }

  /** The sectors that closing this reference leaves in use for nobody: those of a file
      that lost its name without being removed. */
  function Stranded(s: Fs, id: nat): set<nat>
    requires id in s.inodes
  {
    var n := s.inodes[id];
    if LastOf(s, id) && !n.removed && n.sector in s.disk then Extent(s.disk, n.sector) else {}
  }

  lemma CloseCounts(inodes: map<nat, OpenInode>, files: map<nat, File>, extra: Refs, id: nat)
    requires Counts(inodes, files, extra) && id in extra
    ensures inodes[id].openCnt > 0
    ensures var n := inodes[id];
      Counts(if n.openCnt > 1 then inodes[id := n.(openCnt := n.openCnt - 1)] else inodes - {id}, files,
             extra - multiset{id})
  {
    var n, extra' := inodes[id], extra - multiset{id};
    assert CountsOk(n, files, id, extra);
    var inodes' := if n.openCnt > 1 then inodes[id := n.(openCnt := n.openCnt - 1)] else inodes - {id};
    forall i | i in inodes' ensures CountsOk(inodes'[i], files, i, extra') {
      assert CountsOk(inodes[i], files, i, extra);
    }
    if n.openCnt == 1 {
      assert extra[id] == 1;
      forall f | f in files ensures files[f].inode in inodes' {
        assert files[f].inode == id ==> f in HandlesOn(files, id);
      }
    }
  }

  lemma OneLessOpen(s: Fs, id: nat)
    requires Listed(s.openInodes, s.inodes) && id in s.inodes
    ensures OpenSectors(s.inodes - {id}) == OpenSectors(s.inodes) - {s.inodes[id].sector}
    ensures Listed(Without(s.openInodes, id), s.inodes - {id})
  {
    WithoutNoDup(s.openInodes, id);
    OneSectorLess(s.inodes, id);
  }

  lemma OneSectorLess(inodes: map<nat, OpenInode>, id: nat)
    requires id in inodes
    requires forall i :: i in inodes && i != id ==> inodes[i].sector != inodes[id].sector
    ensures OpenSectors(inodes - {id}) == OpenSectors(inodes) - {inodes[id].sector}
  {
    var inodes' := inodes - {id};
    forall i | i in inodes && i != id ensures i in inodes' && inodes'[i] == inodes[i] {
    }
    forall x ensures x in OpenSectors(inodes') <==> x in OpenSectors(inodes) && x != inodes[id].sector {
      if x in OpenSectors(inodes) && x != inodes[id].sector {
        var i :| i in inodes && inodes[i].sector == x;
        assert i in inodes';
      }
    }
  }

  lemma FewerOwners(disk: map<nat, DiskInode>, owners: set<nat>, used: set<nat>, h: nat)
    requires Ownership(disk, owners, used) && h in owners
    ensures Ownership(disk, owners - {h}, used - Extent(disk, h)) && Ownership(disk, owners - {h}, used)
  {
  }

  lemma CloseKeeps(s: Fs, extra: Refs, id: nat)
    requires Inv(s, extra) && id in extra
    ensures id in s.inodes && s.inodes[id].openCnt > 0 && s.inodes[id].sector in s.disk
    ensures Inv(Closed(s, id), extra - multiset{id})
    ensures Owners(Closed(s, id)) ==
      if LastOf(s, id) then Owners(s) - {s.inodes[id].sector} else Owners(s)
  {
    CloseCounts(s.inodes, s.files, extra, id);
    if s.inodes[id].openCnt > 1 {
      NotLastClose(s, extra, id);
    } else {
      LastClose(s, extra, id);
    }
  }

  lemma NotLastClose(s: Fs, extra: Refs, id: nat)
    requires Inv(s, extra) && id in extra && s.inodes[id].openCnt > 1
    ensures s.inodes[id].sector in s.disk
    ensures Inv(Closed(s, id), extra - multiset{id}) && Owners(Closed(s, id)) == Owners(s)
  {
    CloseCounts(s.inodes, s.files, extra, id);
    var n := s.inodes[id].(openCnt := s.inodes[id].openCnt - 1);
    CountsChangeKeeps(s, extra, id, n, s.files, extra - multiset{id});
    assert Closed(s, id) == s.(inodes := s.inodes[id := n], files := s.files);
  }

  lemma LastClose(s: Fs, extra: Refs, id: nat)
    requires Inv(s, extra) && id in extra && s.inodes[id].openCnt == 1
    ensures s.inodes[id].sector in s.disk
    ensures Inv(Closed(s, id), extra - multiset{id})
    ensures Owners(Closed(s, id)) == if LastOf(s, id) then Owners(s) - {s.inodes[id].sector} else Owners(s)
  {
    CloseCounts(s.inodes, s.files, extra, id);
    OneLessOpen(s, id);
    LastCloseOwners(s, id);
    FaithfulLess(s.inodes, id, s.disk, Kept(s.entries), s.intact);
    hide Counts, Listed, Ownership, DirOk, Faithful, Owners, OpenSectors, Kept;
    FewerOwners(s.disk, Owners(s), s.used, s.inodes[id].sector);
    RemovedIsLast(s, id);
  }

  lemma LastCloseOwners(s: Fs, id: nat)
    requires Listed(s.openInodes, s.inodes) && Faithful(s.inodes, s.disk, Kept(s.entries), s.intact) && id in s.inodes
    requires s.inodes[id].openCnt == 1
    ensures s.inodes[id].sector in s.disk && s.inodes[id].sector in Owners(s)
    ensures Owners(Closed(s, id)) == if LastOf(s, id) then Owners(s) - {s.inodes[id].sector} else Owners(s)
  {
    OneLessOpen(s, id);
    assert s.inodes[id].sector in OpenSectors(s.inodes);
  }

  lemma RemovedIsLast(s: Fs, id: nat)
    requires Faithful(s.inodes, s.disk, Kept(s.entries), s.intact) && id in s.inodes
    ensures Frees(s.inodes[id]) ==> LastOf(s, id)
    ensures s.intact ==> Stranded(s, id) == {} && (LastOf(s, id) <==> Frees(s.inodes[id]))
  {
  }

  lemma FaithfulLess(inodes: map<nat, OpenInode>, id: nat, disk: map<nat, DiskInode>, kept: set<nat>, intact: bool)
    requires Faithful(inodes, disk, kept, intact)
    ensures Faithful(inodes - {id}, disk, kept, intact)
  {
  }

  /** What an owner has: its header sector and ceil(length / 512) others. */
  lemma ExtentSize(disk: map<nat, DiskInode>, h: nat)
    requires h in disk && h !in Data(disk[h])
    ensures |Extent(disk, h)| == 1 + BytesToSectors(disk[h].length)
    ensures disk[h].length <= SECTOR * (|Extent(disk, h)| - 1) < disk[h].length + SECTOR
  {
    RunSize(disk[h].start, BytesToSectors(disk[h].length));
    OneMore(Data(disk[h]), h);
    assert Extent(disk, h) == Data(disk[h]) + {h};
  }

  // ------------------------------------------------------ entries of the directory

  /** dir_remove: the entry goes and the open inode is marked. */
  function Erased(s: Fs, i: nat, id: nat): Fs
    requires i < |s.entries| && id in s.inodes
  {
    s.(entries := s.entries[i := s.entries[i].(inUse := false)],
       inodes := s.inodes[id := s.inodes[id].(removed := true)])
  }

  lemma NamedLess(entries: seq<Entry>, i: nat, intact: bool)
    requires DirOk(entries, intact) && i < |entries| && entries[i].inUse
    ensures var entries' := entries[i := entries[i].(inUse := false)];
      DirOk(entries', intact) && Kept(entries') == Kept(entries) - {entries[i].sector}
  {
    var entries' := entries[i := entries[i].(inUse := false)];
    assert EntryOk(entries[i]);
    forall x ensures x in Named(entries') <==> x in Named(entries) && x != entries[i].sector {
      if j :| 0 <= j < |entries| && entries[j].inUse && entries[j].sector == x && j != i {
        assert entries'[j].inUse && entries'[j].sector == x;
      }
    }
    forall j | 0 <= j < |entries'| ensures EntryOk(entries'[j]) {
      assert EntryOk(entries[j]);
    }
  }

  lemma EraseKeeps(s: Fs, i: nat, id: nat)
    requires Inv(s, multiset{id}) && i < |s.entries| && s.entries[i].inUse && s.entries[i].sector == s.inodes[id].sector
    ensures Inv(Erased(s, i, id), multiset{id}) && Owners(Erased(s, i, id)) == Owners(s)
  {
    var s' := Erased(s, i, id);
    var sector := s.inodes[id].sector;
    NamedLess(s.entries, i, s.intact);
    EraseFaithful(s, id, Kept(s.entries));
    EraseCounts(s.inodes, s.files, id);
    assert sector in OpenSectors(s.inodes);
    assert Owners(s') == Owners(s);
  }

  lemma EraseFaithful(s: Fs, id: nat, kept: set<nat>)
    requires Faithful(s.inodes, s.disk, kept, s.intact) && Listed(s.openInodes, s.inodes) && id in s.inodes
    ensures var inodes' := s.inodes[id := s.inodes[id].(removed := true)];
      && Faithful(inodes', s.disk, kept - {s.inodes[id].sector}, s.intact) && Listed(s.openInodes, inodes')
      && OpenSectors(inodes') == OpenSectors(s.inodes)
  {
    SameOpen(s.inodes, s.inodes[id := s.inodes[id].(removed := true)]);
  }

  lemma EraseCounts(inodes: map<nat, OpenInode>, files: map<nat, File>, id: nat)
    requires Counts(inodes, files, multiset{id})
    ensures Counts(inodes[id := inodes[id].(removed := true)], files, multiset{id})
  {
    assert CountsOk(inodes[id], files, id, multiset{id});
  }

  predicate NameFree(entries: seq<Entry>, name: string) {
    forall i :: 0 <= i < |entries| && entries[i].inUse ==> entries[i].name != name
  }

  /** dir_add: a slot gets the name.  It does harm if the slot is that of another file
      or another entry has the name. */
  function Added(s: Fs, i: nat, name: string, sector: nat): Fs
    requires i < |s.entries|
  {
    s.(entries := s.entries[i := Entry(true, name, sector)],
       intact := s.intact && !s.entries[i].inUse && NameFree(s.entries, name))
  }

  /** The file whose entry a new one displaces, if it is not open any more. */
  function Displaced(s: Fs, i: nat): set<nat> {
    if i < |s.entries| && s.entries[i].inUse && s.entries[i].sector !in OpenSectors(s.inodes)
    then {s.entries[i].sector} else {}
  }

  lemma NamedMore(entries: seq<Entry>, i: nat, name: string, sector: nat, intact: bool)
    requires DirOk(entries, intact) && i < |entries| && ValidName(name) && sector !in Kept(entries)
    ensures var entries' := entries[i := Entry(true, name, sector)];
      && DirOk(entries', intact && !entries[i].inUse && NameFree(entries, name))
      && Kept(entries') == Kept(entries) - (if entries[i].inUse then {entries[i].sector} else {}) + {sector}
  {
    var entries' := entries[i := Entry(true, name, sector)];
    forall j | 0 <= j < |entries| && entries[j].inUse ensures entries[j].sector in Named(entries) {
    }
    forall x ensures x in Named(entries') <==>
      (x in Named(entries) && !(entries[i].inUse && x == entries[i].sector)) || x == sector
    {
      if j :| 0 <= j < |entries| && entries[j].inUse && entries[j].sector == x && j != i {
        assert entries'[j].inUse && entries'[j].sector == x;
      }
      assert entries'[i].inUse && entries'[i].sector == sector;
    }
    assert EntryOk(entries[i]);
    forall j | 0 <= j < |entries'| ensures EntryOk(entries'[j]) {
      assert EntryOk(entries[j]);
    }
  }

  /** An inode on the disk whose sectors are used and nobody's. */
  ghost predicate Ownable(s: Fs, h: nat) {
    && h in s.disk && Placed(s.disk[h]) && h !in Data(s.disk[h]) && Extent(s.disk, h) <= s.used
    && forall o :: o in Owners(s) ==> o in s.disk && Extent(s.disk, o) !! Extent(s.disk, h)
  }

  lemma AddKeeps(s: Fs, i: nat, name: string, h: nat)
    requires Inv(s, multiset{}) && i < |s.entries| && ValidName(name) && Ownable(s, h)
    ensures Inv(Added(s, i, name, h), multiset{})
    ensures Owners(Added(s, i, name, h)) == Owners(s) - Displaced(s, i) + {h}
  {
    hide Counts, Listed;
    assert h in Extent(s.disk, h);
    var s' := Added(s, i, name, h);
    NamedMore(s.entries, i, name, h, s.intact);
    AddOwners(s, i, h, s'.entries);
    AddOwnership(s, Displaced(s, i), h);
    AddFaithful(s, Kept(s.entries), Kept(s'.entries), h, s'.intact);
  }

  lemma AddOwners(s: Fs, i: nat, h: nat, entries': seq<Entry>)
    requires i < |s.entries| && (s.entries[i].inUse ==> s.entries[i].sector in Kept(s.entries))
    requires Kept(entries') == Kept(s.entries) - (if s.entries[i].inUse then {s.entries[i].sector} else {}) + {h}
    ensures Kept(entries') + OpenSectors(s.inodes) == Owners(s) - Displaced(s, i) + {h}
  {
  }

  lemma AddOwnership(s: Fs, gone: set<nat>, h: nat)
    requires Ownership(s.disk, Owners(s), s.used) && Ownable(s, h)
    ensures Ownership(s.disk, Owners(s) - gone + {h}, s.used)
  {
    hide Owners, Placed;
  }

  lemma AddFaithful(s: Fs, kept: set<nat>, kept': set<nat>, h: nat, intact: bool)
    requires Faithful(s.inodes, s.disk, kept, s.intact) && h !in OpenSectors(s.inodes)
    requires kept' <= kept + {h} && (intact ==> s.intact && kept <= kept')
    ensures Faithful(s.inodes, s.disk, kept', intact)
  {
    forall id | id in s.inodes ensures s.inodes[id].sector != h {
      assert s.inodes[id].sector in OpenSectors(s.inodes);
    }
  }

  // ------------------------------------------------- scans that are cut short

  /** How reading and writing directory entries goes in one call.  Every read of an
      entry needs memory for a bounce buffer, and a scan ends at a read that fails as at
      the end of the directory: so many reads succeed in lookup, so many in dir_add's
      search for a slot, and then the write does or does not. */
  datatype EntryIo = EntryIo(lookupReads: nat, slotReads: nat, writes: bool)

  /** Nothing fails. */
  predicate Whole(entries: seq<Entry>, io: EntryIo) {
    io.lookupReads >= |entries| && io.slotReads >= |entries| && io.writes
  }

  /** What a scan sees of the directory. */
  function Seen(entries: seq<Entry>, good: nat): seq<Entry> {
    if good < |entries| then entries[..good] else entries
  }

  /** Where the search for a slot stops that has come as far as i. */
  function Slot(entries: seq<Entry>, good: nat, i: nat): (r: nat)
    requires i <= |entries|
    ensures i <= r <= |entries| && forall j :: i <= j < r ==> entries[j].inUse && j != good
    ensures r < |entries| && r != good ==> !entries[r].inUse
    ensures i <= good ==> r <= good
    decreases |entries| - i
  {
    if i == |entries| || i == good || !entries[i].inUse then i else Slot(entries, good, i + 1)
  }

  /** dir_add adds the name. */
  ghost predicate Adds(entries: seq<Entry>, name: string, io: EntryIo) {
    ValidName(name) && NameFree(Seen(entries, io.lookupReads), name) && Slot(entries, io.slotReads, 0) < |entries| &&
    io.writes
  }

  /** The directory takes the name. */
  ghost predicate CanAdd(entries: seq<Entry>, name: string) {
    ValidName(name) && NameFree(entries, name) && FreeSlot(entries)
  }

  ghost predicate FreeSlot(entries: seq<Entry>) {
    exists i :: 0 <= i < |entries| && !entries[i].inUse
  }

  /** When no scan is cut, dir_add adds a name exactly if the directory takes it, and
      does no harm. */
  lemma WholeAdds(entries: seq<Entry>, name: string, io: EntryIo)
    requires Whole(entries, io)
    ensures Adds(entries, name, io) <==> CanAdd(entries, name)
    ensures Adds(entries, name, io) ==> !entries[Slot(entries, io.slotReads, 0)].inUse && NameFree(entries, name)
  {
  }

  /** dir_add overwrites the entry of another file exactly if its search is cut at an
      entry in use before which there is no free slot. */
  lemma OverwritesExactlyWhen(entries: seq<Entry>, name: string, io: EntryIo)
    requires Adds(entries, name, io)
    ensures entries[Slot(entries, io.slotReads, 0)].inUse <==>
      io.slotReads < |entries| && forall j :: 0 <= j <= io.slotReads ==> entries[j].inUse
    ensures entries[Slot(entries, io.slotReads, 0)].inUse ==> Slot(entries, io.slotReads, 0) == io.slotReads
  {
  }

  lemma SeenFree(entries: seq<Entry>, name: string, good: nat)
    requires NameFree(Seen(entries, good), name)
    ensures forall k :: 0 <= k < |entries| && k < good && entries[k].inUse ==> entries[k].name != name
  {
    forall k | 0 <= k < |entries| && k < good && entries[k].inUse ensures entries[k].name != name {
      assert Seen(entries, good)[k] == entries[k];
    }
  }

  /** dir_add gives a name to a second file exactly if lookup is cut before the entry
      that has it, unless that is the one overwritten. */
  lemma DuplicatesExactlyWhen(entries: seq<Entry>, name: string, io: EntryIo, sector: nat)
    requires Adds(entries, name, io) && NamesUnique(entries)
    ensures var slot := Slot(entries, io.slotReads, 0);
      !NamesUnique(entries[slot := Entry(true, name, sector)]) <==>
      exists j :: io.lookupReads <= j < |entries| && j != slot && entries[j].inUse && entries[j].name == name
  {
    var slot := Slot(entries, io.slotReads, 0);
    var entries' := entries[slot := Entry(true, name, sector)];
    if j :| io.lookupReads <= j < |entries| && j != slot && entries[j].inUse && entries[j].name == name {
      assert entries'[j].name == entries'[slot].name;
    }
    if !NamesUnique(entries') {
      var i, j :| 0 <= i < j < |entries| && entries'[i].inUse && entries'[j].inUse && entries'[i].name == entries'[j].name;
      var other := if i == slot then j else i;
      assert entries[other].name == name;
      SeenFree(entries, name, io.lookupReads);
    }
  }

  /** An input that shows both: files a and b, the search for a slot cut at once and
      lookup before b; then adding b displaces a, and there are two files b. */
  lemma CutScansDoHarm(x: nat, y: nat, h: nat)
    ensures var entries := [Entry(true, "a", x), Entry(true, "b", y), Entry(false, "", 0)];
      var io := EntryIo(1, 0, true);
      && NamesUnique(entries) && Adds(entries, "b", io) && Slot(entries, io.slotReads, 0) == 0
      && !NamesUnique(entries[0 := Entry(true, "b", h)]) && NameFree(entries[0 := Entry(true, "b", h)], "a")
  {
    var entries := [Entry(true, "a", x), Entry(true, "b", y), Entry(false, "", 0)];
    assert entries[..1] == [entries[0]];
    assert entries[0 := Entry(true, "b", h)][0].name == entries[0 := Entry(true, "b", h)][1].name;
  }

  // --------------------------------------------------- allocating and creating

  /** There are cnt unused sectors in a row. */
  ghost predicate HasRun(used: set<nat>, size: nat, cnt: nat) {
    exists p: nat :: p + cnt <= size && Run(p, cnt) !! used
  }

  /** A header sector is there, and then the sectors of the data. */
  ghost predicate HasRoom(used: set<nat>, size: nat, cnt: nat) {
    exists h: nat :: h < size && FirstUnused(used, h) && HasRun(used + {h}, size, cnt)
  }

  ghost predicate FirstUnused(used: set<nat>, h: nat) {
    h !in used && forall x: nat :: x < h ==> x in used
  }

  /** Sector x is nobody's. */
  ghost predicate Nobodys(s: Fs, x: nat) {
    forall o :: o in Owners(s) && o in s.disk ==> x !in Extent(s.disk, o)
  }

  lemma UsedGrows(s: Fs, more: set<nat>)
    requires Inv(s, multiset{})
    ensures Inv(s.(used := s.used + more), multiset{}) && Owners(s.(used := s.used + more)) == Owners(s)
  {
  }

  lemma UsedShrinks(s: Fs, x: nat)
    requires Inv(s, multiset{}) && Nobodys(s, x)
    ensures Inv(s.(used := s.used - {x}), multiset{}) && Owners(s.(used := s.used - {x})) == Owners(s)
  {
  }

  /** inode_create after its allocations: header h is written. */
  function Created(s: Fs, h: nat, inode: DiskInode): Fs {
    s.(disk := s.disk[h := inode], used := s.used + Data(inode))
  }

  lemma CreateKeeps(s: Fs, h: nat, inode: DiskInode)
    requires Inv(s, multiset{}) && Nobodys(s, h) && h in s.used
    requires s.used !! Data(inode) && Placed(inode)
    ensures Inv(Created(s, h, inode), multiset{}) && Owners(Created(s, h, inode)) == Owners(s)
    ensures Ownable(Created(s, h, inode), h)
  {
    var s' := Created(s, h, inode);
    assert h in s.disk ==> h in Extent(s.disk, h);
    forall o | o in Owners(s)
      ensures o in s'.disk && Extent(s'.disk, o) == Extent(s.disk, o) && Extent(s'.disk, o) !! Extent(s'.disk, h)
    {
    }
    CreateFaithful(s, h, inode, Kept(s.entries));
  }

  lemma CreateFaithful(s: Fs, h: nat, inode: DiskInode, kept: set<nat>)
    requires Faithful(s.inodes, s.disk, kept, s.intact) && h !in OpenSectors(s.inodes)
    ensures Faithful(s.inodes, s.disk[h := inode], kept, s.intact)
  {
    forall id | id in s.inodes ensures s.inodes[id].sector != h {
      assert s.inodes[id].sector in OpenSectors(s.inodes);
    }
  }

  // ---------------------------------------------------------------- orphans

  /** Sectors in use that nobody owns: those that a failed create leaks, and those of
      files whose entry was overwritten. */
  ghost function Orphans(s: Fs): set<nat> {
    set x | x in s.used && Nobodys(s, x)
  }

  lemma SameOrphans(s: Fs, s': Fs)
    requires s'.disk == s.disk && s'.used == s.used && Owners(s') == Owners(s)
    ensures Orphans(s') == Orphans(s)
  {
  }

  lemma CloseOrphans(s: Fs, extra: Refs, id: nat)
    requires Inv(s, extra) && id in extra
    ensures s.inodes[id].openCnt > 0 && s.inodes[id].sector in s.disk
    ensures Orphans(Closed(s, id)) == Orphans(s) + Stranded(s, id)
  {
    hide Counts, Listed, DirOk, Faithful, Ownership, Orphans, Owners;
    CloseKeeps(s, extra, id);
    RemovedIsLast(s, id);
    OpenIsOwner(s, id);
    var s', h := Closed(s, id), s.inodes[id].sector;
    if Frees(s.inodes[id]) {
      FreedNoOrphans(s, s', h);
    } else if LastOf(s, id) {
      OwnerGone(s, s', {h});
      OneExtent(s.disk, h);
    } else {
      SameOrphans(s, s');
    }
  }

  lemma OpenIsOwner(s: Fs, id: nat)
    requires id in s.inodes
    ensures s.inodes[id].sector in Owners(s)
  {
    assert s.inodes[id].sector in OpenSectors(s.inodes);
  }

  lemma OneExtent(disk: map<nat, DiskInode>, h: nat)
    requires h in disk
    ensures Extents(disk, {h}) == Extent(disk, h)
  {
  }

  lemma FreedNoOrphans(s: Fs, s': Fs, h: nat)
    requires Ownership(s.disk, Owners(s), s.used) && h in Owners(s) && h in s.disk
    requires s'.disk == s.disk && Owners(s') == Owners(s) - {h} && s'.used == s.used - Extent(s.disk, h)
    ensures Orphans(s') == Orphans(s)
  {
    hide Owners, Ownership;
    forall x ensures x in Orphans(s') <==> x in Orphans(s) {
      FreeOrphan(s, s', h, x);
    }
  }

  /** Owners that go without giving back their sectors leave them to nobody. */
  lemma OwnerGone(s: Fs, s': Fs, gone: set<nat>)
    requires Ownership(s.disk, Owners(s), s.used) && gone <= Owners(s)
    requires s'.disk == s.disk && s'.used == s.used && Owners(s') == Owners(s) - gone
    ensures Orphans(s') == Orphans(s) + Extents(s.disk, gone)
  {
    hide Owners;
    forall x ensures x in Orphans(s') <==> x in Orphans(s) || x in Extents(s.disk, gone) {
      if x in Extents(s.disk, gone) {
        var o :| o in gone && o in s.disk && x in Extent(s.disk, o);
        assert o in Owners(s) && Extent(s.disk, o) <= s.used;
      }
    }
  }

  function Extents(disk: map<nat, DiskInode>, owners: set<nat>): set<nat> {
    set o, x | o in owners && o in disk && x in Extent(disk, o) :: x
  }

  lemma FreeOrphan(s: Fs, s': Fs, h: nat, x: nat)
    requires Ownership(s.disk, Owners(s), s.used) && h in Owners(s)
    requires s'.disk == s.disk && Owners(s') == Owners(s) - {h} && s'.used == s.used - Extent(s.disk, h)
    ensures (x in s'.used && Nobodys(s', x)) <==> (x in s.used && Nobodys(s, x))
  {
  }

  /** The new owner's sectors are no orphans any more, those of a displaced one are. */
  lemma AddOrphans(s: Fs, s': Fs, gone: set<nat>, h: nat)
    requires Ownership(s.disk, Owners(s), s.used) && gone <= Owners(s) && Ownable(s, h)
    requires s'.disk == s.disk && s'.used == s.used && Owners(s') == Owners(s) - gone + {h}
    ensures Orphans(s') == Orphans(s) - Extent(s.disk, h) + Extents(s.disk, gone)
  {
    hide Owners, Placed;
    forall x ensures x in Orphans(s') <==> (x in Orphans(s) && x !in Extent(s.disk, h)) || x in Extents(s.disk, gone) {
      if x in Extents(s.disk, gone) {
        var o :| o in gone && o in s.disk && x in Extent(s.disk, o);
        assert o in Owners(s) && Extent(s.disk, o) <= s.used;
      }
    }
  }

  lemma CreateOrphans(s: Fs, h: nat, inode: DiskInode)
    requires Inv(s, multiset{}) && Nobodys(s, h) && h in s.used && s.used !! Data(inode) && Placed(inode)
    ensures Orphans(Created(s, h, inode)) == Orphans(s) + Data(inode)
  {
    CreateKeeps(s, h, inode);
    var s' := Created(s, h, inode);
    assert h in s.disk ==> h in Extent(s.disk, h);
    forall o | o in Owners(s) ensures o in s'.disk && Extent(s'.disk, o) == Extent(s.disk, o) && Extent(s.disk, o) <= s.used {
    }
    forall x ensures x in Orphans(s') <==> x in Orphans(s) || x in Data(inode) {
    }
  }
}
