/**
 The file system calls of filesys/filesys.c, directory.c, file.c and the
 open-inode part of inode.c.  `FsModel` has the state as a value; the methods
 of class `FileSystem` change the fields as the C functions do.

 Any allocation may fail.  `memory` says that malloc always gives a struct inode,
 inode_disk, file or dir, and `freeMap.reliable` that no write of the free map comes
 up short.  The entries of the directory go through a bounce buffer each: an `EntryIo`,
 or a number of reads, says how many of them a call gets; `Whole` says that none fails.
 */
module FileSys {
  import opened Bitmap
  import opened Common
  import opened FreeMap
  import opened FsModel
  import opened InodeIO

  const DIR_ENTRY_SIZE := 20
  const ROOT_ENTRIES := 16

  /** The reference that inode_open returns, if any. */
  function RefsOf(id: Option<nat>): Refs {
    if id.Some? then multiset{id.value} else multiset{}
  }

  /** Nothing happens to the sectors or to the directory. */
  ghost predicate Quiet(s: Fs, s': Fs) {
    && s'.used == s.used && s'.disk == s.disk && s'.entries == s.entries && Owners(s') == Owners(s)
    && s'.intact == s.intact
  }

  /** The files open in both states keep their inodes, and those their sectors
      and lengths. */
  ghost predicate Stable(s: Fs, s': Fs) {
    forall f :: f in s.files && f in s'.files ==>
      var id := s.files[f].inode;
      && s'.files[f].inode == id && id in s.inodes && id in s'.inodes
      && s'.inodes[id].sector == s.inodes[id].sector && s'.inodes[id].data == s.inodes[id].data
  }

  /** What inode_open does. */
  ghost predicate OpenStep(s: Fs, s': Fs, sector: nat, r: Option<nat>) {
    && (r.None? ==> s' == s)
    && (r.Some? && r.value in s.inodes ==> s.inodes[r.value].sector == sector && s' == Reopened(s, r.value))
    && (r.Some? && r.value !in s.inodes ==>
          && sector in s.disk && s' == Opened(s, r.value, sector)
          && forall i :: i in s.inodes ==> s.inodes[i].sector != sector)
  }

  /** Inode id is open in both states, of the same sector and equally often. */
  ghost predicate Same(s: Fs, s': Fs, id: nat) {
    && id in s.inodes && id in s'.inodes
    && s'.inodes[id] == s.inodes[id].(denyWriteCnt := s'.inodes[id].denyWriteCnt)
  }

  /** What closing file f frees. */
  ghost function FreedBy(s: Fs, f: nat): set<nat>
    requires f in s.files && s.files[f].inode in s.inodes
  {
    var n := s.inodes[s.files[f].inode];
    if Frees(n) && n.sector in s.disk then Extent(s.disk, n.sector) else {}
  }

  class FileSystem {
    const freeMap: FreeMap
    const device: Disk        // fs_device
    const memory: bool        // no struct inode, file or dir fails to be allocated
    var disk: map<nat, DiskInode>
    var entries: seq<Entry>
    var openInodes: seq<nat>
    var inodes: map<nat, OpenInode>
    var files: map<nat, File>
    var freeMapFile: Option<nat>   // the free map's own file, which no caller has
    ghost var intact: bool         // no scan of the directory has done harm so far

    ghost function View(): Fs
      requires freeMap.bitmap.Valid()
      reads this, freeMap.bitmap.bits
    {
      Fs(freeMap.Used(), disk, entries, openInodes, inodes, files, intact)
    }

    /** extra is what a call in progress holds. */
    ghost predicate Holds(extra: Refs)
      reads this, freeMap, freeMap.bitmap.bits, device
    {
      && DeviceOk()
      && freeMap.Valid() && freeMap.fileOpen && Inv(View(), extra)
      && (freeMapFile.Some? ==> freeMapFile.value in files)
    }

    /** The free map has a bit for every sector of the device. */
    ghost predicate DeviceOk()
      reads device
    {
      WellSized(device.sectors) && |device.sectors| == freeMap.bitmap.bitCnt
    }

    /** A file that a caller has: open, and not the free map's own. */
    predicate Callers(f: nat)
      reads this
    {
      f in files && freeMapFile != Some(f)
    }

    ghost predicate Valid()
      reads this, freeMap, freeMap.bitmap.bits, device
    {
      Holds(multiset{})
    }

    ghost predicate Sound() {
      memory && freeMap.reliable
    }

    /** Absent failing writes the free map file says after every call exactly which
        sectors are in use, so that a disk mounted again has the same free map. */
    lemma FreeMapOnDisk()
      requires Valid() && freeMap.reliable
      ensures BitsOf(freeMap.onDisk, freeMap.bitmap.bitCnt) == freeMap.bitmap.View()
      ensures OnesFrom(0, BitsOf(freeMap.onDisk, freeMap.bitmap.bitCnt)) == View().used
    {
      freeMap.FileMirrorsMap();
    }

    /** filesys_init up to inode_init and free_map_init. */
    constructor (blocks: Sectors, memory: bool, reliable: bool)
      requires |blocks| >= 2 && WellSized(blocks)
      ensures freeMap.Valid() && !freeMap.fileOpen && freeMap.bitmap.bitCnt == |blocks|
      ensures DeviceOk() && fresh(device) && device.sectors == blocks
      ensures this.memory == memory && freeMap.reliable == reliable
      ensures fresh(freeMap) && fresh(freeMap.bitmap.bits) && freeMapFile == None
      ensures View() == Fs({FREE_MAP_SECTOR, ROOT_DIR_SECTOR}, map[], [], [], map[], map[], true)
    {
      freeMap := new FreeMap(|blocks|, reliable);
      device := new Disk(blocks);
      this.memory := memory;
      disk, entries, openInodes, inodes, files, freeMapFile := map[], [], [], map[], map[], None;
      intact := true;
    }

    /** malloc: an address that is not in use, or none. */
    method NewAddress(taken: set<nat>) returns (r: Option<nat>)
      ensures r.Some? ==> r.value !in taken
      ensures memory ==> r.Some?
    {
      var available: bool := *;
      if !available && !memory {
        return None;
      }
      AddressExists(taken);
      var a: nat :| a !in taken;
      r := Some(a);
    }

    // -------------------------------------------------------------- inode.c

    /** inode_create: the inode goes to its sector and zeros go to its data sectors.
        What the bytes of the inode's own sector are is not said. */
    method InodeCreate(sector: nat, length: nat) returns (ok: bool)
      requires freeMap.Valid() && DeviceOk() && sector < freeMap.bitmap.bitCnt
      modifies `disk, device, freeMap`onDisk, freeMap`stale, freeMap.bitmap.bits
      ensures freeMap.Valid() && DeviceOk()
      ensures !ok ==> View() == old(View()) && device.sectors == old(device.sectors)
      ensures ok ==> sector in disk && disk[sector].length == length && Placed(disk[sector])
      ensures ok ==> old(View()).used !! Data(disk[sector])
      ensures ok ==> View() == Created(old(View()), sector, disk[sector])
      ensures ok ==> KeptBut({sector} + Data(disk[sector]), old(device.sectors), device.sectors)
      ensures ok && sector in old(View()).used ==> Blank(disk[sector], device.sectors)
      ensures ok && freeMap.fileOpen ==> !freeMap.stale
      ensures ok ==> HasRun(old(View()).used, freeMap.bitmap.bitCnt, BytesToSectors(length))
      ensures Sound() && HasRun(old(View()).used, freeMap.bitmap.bitCnt, BytesToSectors(length)) ==> ok
    {
      hide HasRun, KeptBut, Blank;
      var mem := NewAddress({});
      if mem.None? {
        return false;
      }
      var start := freeMap.Allocate(BytesToSectors(length));
      RunFound(old(View()).used, freeMap.bitmap.bitCnt, BytesToSectors(length), start);
      if start.None? {
        assert View().used == old(View()).used;
        return false;
      }
      assert BytesToSectors(length) == 0 ==> Run(0, BytesToSectors(length)) == {};
      disk := disk[sector := DiskInode(start.value, length)];
      WriteNewInode(sector, disk[sector]);
      ok := true;
    }

    /** The block_write calls of inode_create. */
    method WriteNewInode(sector: nat, inode: DiskInode)
      requires DeviceOk() && sector < |device.sectors|
      requires inode.start + BytesToSectors(inode.length) <= |device.sectors|
      modifies device
      ensures DeviceOk() && KeptBut({sector} + Data(inode), old(device.sectors), device.sectors)
      ensures sector !in Data(inode) ==> Blank(inode, device.sectors)
    {
      var header: seq<byte> := *;
      device.Write(sector, if |header| == SECTOR then header else seq(SECTOR, _ => 0));
      ghost var d := device.sectors;
      var cnt := BytesToSectors(inode.length);
      var i := 0;
      while i < cnt
        invariant i <= cnt && WellSized(device.sectors) && |device.sectors| == |d|
        invariant forall x: nat :: x < |d| ==>
          device.sectors[x] == if inode.start <= x < inode.start + i then seq(SECTOR, _ => 0) else d[x]
      {
        device.Write(inode.start + i, seq(SECTOR, _ => 0));
        i := i + 1;
      }
      forall x: nat | x < |d| && x !in {sector} + Data(inode) ensures device.sectors[x] == old(device.sectors)[x] {
        assert x !in Data(inode);
      }
      ZeroSectorsBlank(inode, device.sectors);
    }

    /** The search of open_inodes. */
    method FindOpen(sector: nat) returns (r: Option<nat>)
      requires Listed(openInodes, inodes)
      ensures r.Some? ==> r.value in inodes && inodes[r.value].sector == sector
      ensures r.None? ==> forall id :: id in inodes ==> inodes[id].sector != sector
    {
      var i := 0;
      while i < |openInodes|
        invariant i <= |openInodes|
        invariant forall j :: 0 <= j < i ==> openInodes[j] in inodes && inodes[openInodes[j]].sector != sector
      {
        var id := openInodes[i];
        assert id in openInodes;
        if inodes[id].sector == sector {
          return Some(id);
        }
        i := i + 1;
      }
      forall id | id in inodes ensures inodes[id].sector != sector {
        assert id in openInodes;
      }
      r := None;
    }

    /** inode_reopen */
    method InodeReopen(id: nat)
      requires Valid() && id in inodes
      modifies `inodes
      ensures Holds(multiset{id}) && View() == Reopened(old(View()), id)
    {
      ghost var s := View();
      ReopenKeeps(s, id);
      inodes := inodes[id := inodes[id].(openCnt := inodes[id].openCnt + 1)];
      assert View() == Reopened(s, id);
    }

    method InodeRead(id: nat, sector: nat)
      requires Valid() && sector in Kept(entries) && id !in inodes
      requires forall i :: i in inodes ==> inodes[i].sector != sector
      modifies `openInodes, `inodes
      ensures sector in disk && Holds(multiset{id}) && View() == Opened(old(View()), id, sector)
    {
      ghost var s := View();
      OpenKeeps(s, id, sector);
      openInodes := [id] + openInodes;
      inodes := inodes[id := OpenInode(sector, 1, 0, false, disk[sector])];
      assert View() == Opened(s, id, sector);
    }

    /** inode_open of an inode that is there to stay. */
    method InodeOpen(sector: nat) returns (r: Option<nat>)
      requires Valid() && sector in Kept(entries)
      modifies `openInodes, `inodes
      ensures Holds(RefsOf(r)) && OpenStep(old(View()), View(), sector, r)
      ensures memory ==> r.Some?
    {
      r := FindOpen(sector);
      if r.Some? {
        InodeReopen(r.value);
        return;
      }
      r := NewAddress(inodes.Keys);
      if r.Some? {
        InodeRead(r.value, sector);
      }
    }

    /** inode_close */
    method InodeClose(id: nat, ghost extra: Refs)
      requires Holds(extra) && id in extra
      modifies `openInodes, `inodes, freeMap`onDisk, freeMap`stale, freeMap.bitmap.bits
      ensures old(inodes)[id].openCnt > 0 && old(inodes)[id].sector in disk
      ensures Holds(extra - multiset{id}) && View() == Closed(old(View()), id)
    {
      hide Inv;
      InvFacts(View(), extra);
      CloseKeeps(View(), extra, id);
      if inodes[id].openCnt > 1 {
        InodeLeave(id);
      } else {
        InodeFree(id, extra);
      }
    }

    method InodeLeave(id: nat)
      requires id in inodes && inodes[id].openCnt > 1 && inodes[id].sector in disk && freeMap.bitmap.Valid()
      modifies `inodes
      ensures View() == Closed(old(View()), id)
    {
      inodes := inodes[id := inodes[id].(openCnt := inodes[id].openCnt - 1)];
    }

    /** The last close. */
    method InodeFree(id: nat, ghost extra: Refs)
      requires Holds(extra) && id in extra && inodes[id].openCnt == 1
      modifies `openInodes, `inodes, freeMap`onDisk, freeMap`stale, freeMap.bitmap.bits
      ensures old(inodes)[id].sector in disk
      ensures freeMap.Valid() && View() == Closed(old(View()), id)
    {
      OwnerReleases(View(), extra, id);
      var n := inodes[id];
      openInodes := Without(openInodes, id);
      inodes := inodes - {id};
      if n.removed {
        ReleaseInode(n);
      }
    }

    /** The two releases at the last close of a removed inode. */
    method ReleaseInode(n: OpenInode)
      requires freeMap.Valid() && freeMap.fileOpen && Placed(n.data)
      requires n.sector in freeMap.Used() && Data(n.data) <= freeMap.Used() - {n.sector}
      modifies freeMap`onDisk, freeMap`stale, freeMap.bitmap.bits
      ensures freeMap.Valid() && freeMap.Used() == old(freeMap.Used()) - ({n.sector} + Data(n.data))
    {
      assert Run(n.sector, 1) == {n.sector};
      var cnt := BytesToSectors(n.data.length);
      assert cnt > 0 ==> n.data.start + cnt - 1 in Data(n.data);
      ghost var header := freeMap.Release(n.sector, 1);
      ghost var data := freeMap.Release(n.data.start, cnt);
    }

    // --------------------------------------------------------------- file.c

    /** file_open and dir_open: the new file takes over the reference, or it is
        given up. */
    method FileOpen(inode: Option<nat>) returns (f: Option<nat>)
      requires Holds(RefsOf(inode))
      modifies `files, `openInodes, `inodes, freeMap`onDisk, freeMap`stale, freeMap.bitmap.bits
      ensures Valid()
      ensures f.Some? ==> inode.Some? && f.value !in old(files) && View() == Attached(old(View()), f.value, inode.value)
      ensures f.Some? ==> freeMap.stale == old(freeMap.stale)
      ensures memory && inode.Some? ==> f.Some?
      ensures f.None? && inode.None? ==> View() == old(View())
      ensures f.None? && inode.Some? ==>
        && old(inodes)[inode.value].openCnt > 0 && old(inodes)[inode.value].sector in disk
        && View() == Closed(old(View()), inode.value)
    {
      hide Inv, Owners;
      InvFacts(View(), RefsOf(inode));
      var mem := NewAddress(files.Keys);
      if inode.Some? && mem.Some? {
        AttachKeeps(View(), mem.value, inode.value);
        files := files[mem.value := File(inode.value, false)];
        f := mem;
      } else {
        if inode.Some? {
          InodeClose(inode.value, RefsOf(inode));
          assert RefsOf(inode) - multiset{inode.value} == multiset{};
        }
        f := None;
      }
    }

    /** file_reopen */
    method FileReopen(f: nat) returns (r: Option<nat>)
      requires Valid() && Callers(f)
      modifies `files, `openInodes, `inodes, freeMap`onDisk, freeMap`stale, freeMap.bitmap.bits
      ensures Valid()
      ensures r.Some? ==> r.value !in old(files) && files == old(files)[r.value := File(old(files)[f].inode, false)]
      ensures r.None? ==> files == old(files)
      ensures Quiet(old(View()), View()) && Stable(old(View()), View())
      ensures memory ==> r.Some?
    {
      hide Inv, Owners, Stable;
      ghost var s := View();
      InvFacts(s, multiset{});
      NothingHappens(s, multiset{});
      var id := files[f].inode;
      ReopenKeeps(s, id);
      InodeReopen(id);
      ghost var s1 := View();
      r := FileOpen(Some(id));
      if r.Some? {
        ReopenAttach(s, r.value, id);
      } else {
        assert View() == s;
      }
    }

    /** file_deny_write */
    method FileDenyWrite(f: nat)
      requires Valid() && Callers(f)
      modifies `files, `inodes
      ensures Valid() && files == old(files)[f := File(old(files)[f].inode, true)]
      ensures Quiet(old(View()), View()) && Stable(old(View()), View())
    {
      hide Inv, Owners;
      InvFacts(View(), multiset{});
      if !files[f].denyWrite {
        SetDeny(f, true);
      }
    }

    /** file_allow_write */
    method FileAllowWrite(f: nat)
      requires Valid() && Callers(f)
      modifies `files, `inodes
      ensures Valid() && files == old(files)[f := File(old(files)[f].inode, false)]
      ensures Quiet(old(View()), View()) && Stable(old(View()), View())
      ensures !old(files)[f].denyWrite ==> View() == old(View())
      ensures Same(old(View()), View(), old(files)[f].inode)
    {
      hide Inv, Owners, Stable, Quiet, Same, Denied;
      ghost var s := View();
      NothingHappens(s, multiset{});
      AllowEffects(s, f);
      if files[f].denyWrite {
        SetDeny(f, false);
      }
    }

    /** inode_deny_write or inode_allow_write, whose assertions hold. */
    method SetDeny(f: nat, deny: bool)
      requires Valid() && f in files && files[f].denyWrite == !deny
      modifies `files, `inodes
      ensures deny || old(inodes)[old(files)[f].inode].denyWriteCnt > 0
      ensures Valid() && View() == Denied(old(View()), f, deny) && Owners(View()) == Owners(old(View()))
    {
      hide Inv, Owners;
      ghost var s := View();
      InvFacts(s, multiset{});
      DenyKeeps(s, f, deny);
      var id := files[f].inode;
      var n := inodes[id];
      files := files[f := File(id, deny)];
      inodes := inodes[id := n.(denyWriteCnt := if deny then n.denyWriteCnt + 1 else n.denyWriteCnt - 1)];
      assert View() == Denied(s, f, deny);
    }

    /** file_write_at: the bytes go where they belong unless some file on the inode
        denies writes, and no file on another inode changes. */
    method FileWriteAt(f: nat, buffer: seq<byte>, size: int, ofs: nat, bounceOk: bool)
      returns (bytesWritten: nat)
      requires Valid() && Callers(f) && size <= |buffer|
      modifies device
      ensures Valid()
      ensures forall g :: g in files ==> files[g].inode in inodes && Fits(inodes[files[g].inode].data, device.sectors)
      ensures var length := inodes[files[f].inode].data.length;
        bytesWritten ==
          if DenyingOn(files, files[f].inode) != {} then 0 else Transferred(size, ofs, length, bounceOk)
      ensures bytesWritten <= |buffer|
      ensures var was := old(Bytes(inodes[files[f].inode].data, device.sectors));
        Bytes(inodes[files[f].inode].data, device.sectors) == Overwritten(was, ofs, buffer[..bytesWritten])
      ensures forall g :: g in files && files[g].inode != files[f].inode ==>
        Bytes(inodes[files[g].inode].data, device.sectors) == old(Bytes(inodes[files[g].inode].data, device.sectors))
      ensures KeptBut(Data(inodes[files[f].inode].data), old(device.sectors), device.sectors)
    {
      hide Inv, Fits, Bytes, Overwritten, Transferred, KeptBut;
      InvFacts(View(), multiset{});
      var id := files[f].inode;
      ghost var d := device.sectors;
      DenialCounted(View(), id);
      forall i | i in inodes ensures Fits(inodes[i].data, d) {
        OpenFits(View(), i, d, freeMap.bitmap.bitCnt);
      }
      var inode := new Inode(inodes[id].data.start, inodes[id].data.length, inodes[id].denyWriteCnt);
      bytesWritten := WriteInode(inode, inodes[id].data, device, buffer, size, ofs, bounceOk);
      forall i | i in inodes ensures Fits(inodes[i].data, device.sectors) {
        OpenFits(View(), i, device.sectors, freeMap.bitmap.bitCnt);
      }
      forall g | g in files && files[g].inode != id
        ensures Bytes(inodes[files[g].inode].data, device.sectors) == Bytes(inodes[files[g].inode].data, d)
      {
        OpenApart(View(), id, files[g].inode);
        OtherBytes(d, inodes[id].data, inodes[files[g].inode].data, ofs, buffer[..bytesWritten]);
      }
    }

    static method WriteInode(inode: Inode, data: DiskInode, device: Disk, buffer: seq<byte>, size: int, ofs: nat,
                             bounceOk: bool)
      returns (bytesWritten: nat)
      requires inode.start == data.start && inode.length == data.length && size <= |buffer|
      requires Fits(data, device.sectors)
      modifies device
      ensures bytesWritten == if inode.denyWriteCnt > 0 then 0 else Transferred(size, ofs, data.length, bounceOk)
      ensures bytesWritten <= |buffer| && (bytesWritten > 0 ==> ofs + bytesWritten <= data.length)
      ensures WellSized(old(device.sectors))
      ensures device.sectors == Patch(old(device.sectors), data.start, ofs, buffer[..bytesWritten])
      ensures Fits(data, device.sectors) && KeptBut(Data(data), old(device.sectors), device.sectors)
      ensures Bytes(data, device.sectors) == Overwritten(Bytes(data, old(device.sectors)), ofs, buffer[..bytesWritten])
    {
      bytesWritten := inode.WriteAt(device, buffer, size, ofs, bounceOk);
      OtherSectorsKept(old(device.sectors), data, ofs, buffer[..bytesWritten]);
      if bytesWritten > 0 {
        FileOfPatch(old(device.sectors), data.start, data.length, ofs, buffer[..bytesWritten]);
      } else {
        PatchNothing(old(device.sectors), data.start, ofs);
        assert buffer[..0] == [];
      }
    }

    /** Does inode_write_at refuse to write to this file? */
    method WriteRefused(f: nat) returns (refused: bool)
      requires Valid() && Callers(f)
      ensures refused <==> exists g :: g in files && files[g].inode == files[f].inode && files[g].denyWrite
    {
      RefusedExactlyWhileDenied(View(), files[f].inode);
      refused := inodes[files[f].inode].denyWriteCnt > 0;
    }

    /** file_close: the sectors of a removed file go with its last handle, and
        no close frees anything else. */
    method FileClose(f: nat)
      requires Valid() && Callers(f)
      modifies `files, `openInodes, `inodes, freeMap`onDisk, freeMap`stale, freeMap.bitmap.bits
      ensures Valid() && files == old(files) - {f} && entries == old(entries) && disk == old(disk)
      ensures old(files)[f].inode in old(inodes)
      ensures freeMap.Used() == old(freeMap.Used()) - FreedBy(old(View()), f)
      ensures var id := old(files)[f].inode; var h := old(inodes)[id].sector;
        && Owners(View()) == (if LastOf(old(View()), id) then Owners(old(View())) - {h} else Owners(old(View())))
        && Orphans(View()) == Orphans(old(View())) + Stranded(old(View()), id)
        && (intact ==> Stranded(old(View()), id) == {})
      ensures Stable(old(View()), View())
    {
      hide Inv, Owners, Orphans, Stable, Stranded, LastOf, Quiet, Same, FreedBy, Frees, Closed, Listed, Kept;
      ghost var s := View();
      InvFacts(s, multiset{});
      IntactStrandsNone(s, multiset{}, files[f].inode);
      FileAllowWrite(f);
      ghost var s1 := View();
      InvFacts(s1, multiset{});
      var id := files[f].inode;
      DetachKeeps(s1, multiset{}, f);
      OneReference(id);
      files := files - {f};
      ghost var s2 := View();
      assert s2 == Detached(s1, f);
      CloseEffects(s2, multiset{id}, id);
      InodeClose(id, multiset{id});
      CloseDone(s, s1, s2, View(), f, id);
    }

    // ---------------------------------------------------------- directory.c

    /** dir_open_root */
    method DirOpenRoot() returns (dir: Option<nat>)
      requires Valid()
      modifies `files, `openInodes, `inodes, freeMap`onDisk, freeMap`stale, freeMap.bitmap.bits
      ensures Valid() && Quiet(old(View()), View()) && Stable(old(View()), View())
      ensures dir.None? ==> files == old(files)
      ensures dir.Some? ==> dir.value !in old(files) && dir.value in files && !files[dir.value].denyWrite
      ensures dir.Some? ==> files == old(files)[dir.value := files[dir.value]]
      ensures dir.Some? ==> inodes[files[dir.value].inode].sector == ROOT_DIR_SECTOR
      ensures memory ==> dir.Some?
    {
      hide Inv, Owners, Orphans, Stable;
      ghost var s := View();
      var id := InodeOpen(ROOT_DIR_SECTOR);
      ghost var s1 := View();
      OpenEffects(s, s1, ROOT_DIR_SECTOR, id);
      if id.Some? {
        CloseEffects(s1, multiset{id.value}, id.value);
      }
      dir := FileOpen(id);
      if id.Some? {
        if dir.Some? {
          AttachEffects(s1, dir.value, id.value);
        }
        StableTwice(s, s1, View());
      }
    }

    /** dir_close of the root directory, which is never removed. */
    method DirClose(dir: nat, ghost extra: Refs)
      requires Holds(extra) && Callers(dir) && !files[dir].denyWrite
      requires files[dir].inode in inodes ==> inodes[files[dir].inode].sector == ROOT_DIR_SECTOR
      modifies `files, `openInodes, `inodes, freeMap`onDisk, freeMap`stale, freeMap.bitmap.bits
      ensures Holds(extra) && files == old(files) - {dir} && Quiet(old(View()), View())
      ensures Orphans(View()) == Orphans(old(View())) && Stable(old(View()), View())
      ensures forall id :: id in extra ==>
        id in inodes && id in old(inodes) && inodes[id].sector == old(inodes)[id].sector
    {
      hide Inv, Owners, Orphans, Stable, Frees;
      ghost var s := View();
      RootIsKept(s, extra, dir);
      var id := files[dir].inode;
      DetachKeeps(s, extra, dir);
      files := files - {dir};
      ghost var s1 := View();
      assert s1 == Detached(s, dir);
      SameOrphans(s, s1);
      ghost var held := extra + multiset{id};
      assert held - multiset{id} == extra;
      CloseEffects(s1, held, id);
      InvFacts(s1, held);
      InodeClose(id, held);
      InvFacts(View(), extra);
      NothingHappens(s, extra);
      StableClose(s, s, s1, View(), dir);
    }

    /** lookup: the first entry in use of that name among those that can be read. */
    method Lookup(name: string, good: nat) returns (r: Option<nat>)
      ensures r.Some? ==> FirstNamed(entries, name, r.value)
      ensures r.None? <==> NameFree(Seen(entries, good), name)
    {
      var i := 0;
      while i < |entries| && i < good
        invariant i <= |entries| && i <= good
        invariant forall j :: 0 <= j < i && entries[j].inUse ==> entries[j].name != name
      {
        if entries[i].inUse && entries[i].name == name {
          assert Seen(entries, good)[i] == entries[i];
          return Some(i);
        }
        i := i + 1;
      }
      r := None;
    }

    /** dir_add: refused for a name that is invalid or seen to be taken, for want of a
        slot, as the directory does not grow, or because the write fails.  A scan that
        is cut short can overwrite the entry of another file or give its name to a
        second one. */
    method DirAdd(name: string, sector: nat, io: EntryIo) returns (ok: bool)
      requires Valid() && Ownable(View(), sector)
      modifies `entries, `intact
      ensures Valid() && (ok <==> Adds(old(entries), name, io))
      ensures ok ==> Slot(old(entries), io.slotReads, 0) < |old(entries)|
      ensures ok ==> View() == Added(old(View()), Slot(old(entries), io.slotReads, 0), name, sector)
      ensures ok ==>
        var gone := Displaced(old(View()), Slot(old(entries), io.slotReads, 0));
        gone <= Owners(old(View())) && Owners(View()) == Owners(old(View())) - gone + {sector}
      ensures !ok ==> View() == old(View())
      ensures Whole(old(entries), io) ==> (ok <==> CanAdd(old(entries), name)) && intact == old(intact)
    {
      hide Inv, Owners, Ownable;
      ghost var s := View();
      if Whole(entries, io) {
        WholeAdds(entries, name, io);
      }
      if |name| == 0 || |name| > NAME_MAX {
        return false;
      }
      var found := Lookup(name, io.lookupReads);
      if found.Some? {
        return false;
      }
      var i := 0;
      while i < |entries| && i != io.slotReads && entries[i].inUse
        invariant i <= |entries| && Slot(entries, io.slotReads, i) == Slot(entries, io.slotReads, 0)
      {
        i := i + 1;
      }
      ok := io.writes && i < |entries|;
      if ok {
        AddKeeps(s, i, name, sector);
        DisplacedOwns(s, i);
        intact := intact && !entries[i].inUse && NameFree(entries, name);
        entries := entries[i := Entry(true, name, sector)];
      }
    }

    /** dir_remove: the entry goes at once; the sectors go at once only if nobody
        has the file open. */
    method DirRemove(name: string, io: EntryIo) returns (ok: bool)
      requires Valid()
      modifies `entries, `openInodes, `inodes, freeMap`onDisk, freeMap`stale, freeMap.bitmap.bits
      ensures Valid() && files == old(files) && disk == old(disk)
      ensures ok ==> !NameFree(Seen(old(entries), io.lookupReads), name) && io.writes
      ensures memory && io.writes && !NameFree(Seen(old(entries), io.lookupReads), name) ==> ok
      ensures ok && intact ==> NameFree(entries, name)
      ensures ok ==> exists i: nat :: Removed(old(View()), View(), i, name)
      ensures !ok ==> Quiet(old(View()), View())
      ensures Orphans(View()) == Orphans(old(View())) && Stable(old(View()), View())
    {
      hide Inv, Owners, Orphans, Stable;
      ghost var s := View();
      var found := Lookup(name, io.lookupReads);
      if found.None? {
        NothingHappens(s, multiset{});
        return false;
      }
      var i := found.value;
      var e := entries[i];
      NamedIsKept(s.entries, i);
      var inode := InodeOpen(e.sector);
      ghost var s1 := View();
      OpenEffects(s, s1, e.sector, inode);
      if inode.None? {
        return false;
      }
      var id := inode.value;
      ok := io.writes;
      if ok {
        EraseEffects(s1, i, id);
        entries := entries[i := e.(inUse := false)];
        inodes := inodes[id := inodes[id].(removed := true)];
        assert View() == Erased(s1, i, id);
      } else {
        NothingHappens(s1, multiset{id});
      }
      ghost var s2 := View();
      CloseEffects(s2, multiset{id}, id);
      InodeClose(id, multiset{id});
      assert multiset{id} - multiset{id} == multiset{};
      RemoveDone(s, s1, s2, View(), i, id, name, ok);
    }

    // ------------------------------------------------------------ filesys.c

    /** filesys_create.  A new file gets sectors that nobody used.  When only the
        directory refuses the name, the header sector goes back but the data
        sectors stay in use without an owner. */
    method FilesysCreate(name: string, initialSize: nat, io: EntryIo)
      returns (success: bool, ghost made: bool, ghost leak: set<nat>)
      requires Valid()
      modifies `disk, `entries, `intact, `files, `openInodes, `inodes, device
      modifies freeMap`onDisk, freeMap`stale, freeMap.bitmap.bits
      ensures Valid() && files == old(files) && Stable(old(View()), View())
      ensures CreateDone(old(View()), View(), name, initialSize, io, success, made, leak)
      ensures made ==> HasRoom(old(View()).used, freeMap.bitmap.bitCnt, BytesToSectors(initialSize))
      ensures Sound() ==> (made <==> HasRoom(old(View()).used, freeMap.bitmap.bitCnt, BytesToSectors(initialSize)))
      ensures Sound() ==> (leak != {} <==> Leaks(old(View()), freeMap.bitmap.bitCnt, name, initialSize, io))
      ensures Sound() && !success ==>
        var lost := if Leaks(old(View()), freeMap.bitmap.bitCnt, name, initialSize, io) then BytesToSectors(initialSize) else 0;
        |Orphans(View())| == |Orphans(old(View()))| + lost
      ensures Whole(old(entries), io) ==> WholeCreate(old(View()), View(), name, success, made, leak)
      ensures SectorsKept(old(View()).used, old(device.sectors), device.sectors)
      ensures success ==> NewIsBlank(View(), Slot(old(entries), io.slotReads, 0), device.sectors)
    {
      hide NewIsBlank, SectorsKept;
      hide Inv, Owners, Orphans, Stable, CreateDone, Frees, Leaks, HasRoom, Adds, WholeCreate, Displaced;
      ghost var s := View();
      success, made, leak := false, false, {};
      SectorsStay(s.used, device.sectors);
      var dir := DirOpenRoot();
      ghost var s1 := View();
      SameOrphans(s, s1);
      if dir.None? {
        NotCreated(s, s1, name, initialSize, io);
      } else {
        InvFacts(s1, multiset{});
        success, made, leak := CreateNamed(name, initialSize, io);
        ghost var s2 := View();
        DirClose(dir.value, multiset{});
        ghost var s3 := View();
        NewStaysBlank(s2, s3, Slot(s.entries, io.slotReads, 0), device.sectors);
        AddedAndGone(s.files, dir.value, s1.files[dir.value]);
        StableAround(s, s1, s2, s3, dir.value);
        CreateAround(s, s1, s2, s3, dir.value, name, initialSize, io, success, made, leak);
      }
      if Sound() {
        LeakExactlyWhen(s, View(), freeMap.bitmap.bitCnt, name, initialSize, io, success, made, leak);
      }
      if Whole(s.entries, io) {
        WholeCreates(s, View(), name, initialSize, io, success, made, leak);
      }
    }

    /** The allocations and the directory entry, with their undoing. */
    method CreateNamed(name: string, initialSize: nat, io: EntryIo)
      returns (success: bool, ghost made: bool, ghost leak: set<nat>)
      requires Valid()
      modifies `disk, `entries, `intact, device, freeMap`onDisk, freeMap`stale, freeMap.bitmap.bits
      ensures Valid()
      ensures SectorsKept(old(View()).used, old(device.sectors), device.sectors)
      ensures success ==> NewIsBlank(View(), Slot(old(entries), io.slotReads, 0), device.sectors)
      ensures CreateDone(old(View()), View(), name, initialSize, io, success, made, leak)
      ensures made ==> HasRoom(old(View()).used, freeMap.bitmap.bitCnt, BytesToSectors(initialSize))
      ensures Sound() ==> (made <==> HasRoom(old(View()).used, freeMap.bitmap.bitCnt, BytesToSectors(initialSize)))
    {
      hide Inv, Owners, Orphans, Nobodys, CreateDone, CreatedIn, NewIsBlank, SectorsKept;
      ghost var s := View();
      success, made, leak := false, false, {};
      SectorsStay(s.used, device.sectors);
      var sector := freeMap.Allocate(1);
      ghost var size, cnt := freeMap.bitmap.bitCnt, BytesToSectors(initialSize);
      if sector.None? {
        assert View() == s;
        if Sound() {
          NoHeader(s.used, size, cnt);
        }
        NotCreated(s, s, name, initialSize, io);
        return;
      }
      var h := sector.value;
      assert Run(h, 1) == {h};
      HeaderTaken(s, h);
      RoomAfterHeader(s.used, size, cnt, h);
      ghost var s1 := View();
      assert s1 == s.(used := s.used + {h});
      success, made, leak := CreateIn(h, name, initialSize, io);
      ghost var s2 := View();
      assert s1.used - {h} == s.used;
      if success {
        CreateSucceeds(s, s2, h, name, initialSize, io, made, leak);
      } else {
        CreateFails(s, s2, h, name, initialSize, io, made, leak);
        ghost var wrote := freeMap.Release(h, 1);
        assert View() == s2.(used := s2.used - {h});
      }
    }

    /** The inode in header sector h, and the directory entry. */
    method CreateIn(h: nat, name: string, initialSize: nat, io: EntryIo)
      returns (success: bool, ghost made: bool, ghost leak: set<nat>)
      requires Valid() && Nobodys(View(), h) && h in freeMap.Used()
      modifies `disk, `entries, `intact, device, freeMap`onDisk, freeMap`stale, freeMap.bitmap.bits
      ensures Valid()
      ensures SectorsKept(old(View()).used - {h}, old(device.sectors), device.sectors)
      ensures success ==> NewIsBlank(View(), Slot(old(entries), io.slotReads, 0), device.sectors)
      ensures CreatedIn(old(View()), View(), h, name, initialSize, io, success, made, leak)
      ensures made ==> HasRun(old(View()).used, freeMap.bitmap.bitCnt, BytesToSectors(initialSize))
      ensures Sound() ==> (made <==> HasRun(old(View()).used, freeMap.bitmap.bitCnt, BytesToSectors(initialSize)))
    {
      hide Inv, Owners, Orphans, Ownable, Nobodys, Displaced, Adds, CanAdd, Whole, HasRun, CreatedIn;
      hide NewIsBlank, SectorsKept, KeptBut, Blank, WellSized;
      ghost var s := View();
      made, leak := false, {};
      SectorsStay(s.used - {h}, device.sectors);
      ghost var d := device.sectors;
      success := InodeCreate(h, initialSize);
      if !success {
        NoInode(s, h, name, initialSize, io);
        return;
      }
      made := true;
      ghost var inode := disk[h];
      ghost var s1 := View();
      OthersKept(s.used, h, inode, d, device.sectors);
      CreateKeeps(s, h, inode);
      CreateOrphans(s, h, inode);
      OrphansAreUsed(s);
      success := DirAdd(name, h, io);
      if success {
        EntryAdded(s, s1, View(), h, inode, name, io);
        AddedIsBlank(s1, Slot(s.entries, io.slotReads, 0), name, h, device.sectors);
      } else {
        leak := Data(inode);
        EntryRefused(s, s1, h, inode, name, io);
      }
    }

    /** dir_lookup in the root directory: a reference to the inode of that name. */
    method DirLookup(name: string, good: nat) returns (inode: Option<nat>)
      requires Valid()
      modifies `openInodes, `inodes
      ensures Holds(RefsOf(inode)) && Quiet(old(View()), View())
      ensures Orphans(View()) == Orphans(old(View())) && Stable(old(View()), View())
      ensures inode.Some? ==> inode.value in inodes && NamedBy(entries, name, inodes[inode.value].sector)
      ensures inode.Some? ==> !NameFree(Seen(entries, good), name)
      ensures memory && !NameFree(Seen(entries, good), name) ==> inode.Some?
    {
      hide Inv, Owners, Orphans, Stable;
      ghost var s := View();
      var found := Lookup(name, good);
      if found.Some? {
        NamedIsKept(entries, found.value);
        inode := InodeOpen(entries[found.value].sector);
        OpenEffects(s, View(), entries[found.value].sector, inode);
      } else {
        NothingHappens(s, multiset{});
        inode := None;
      }
    }

    /** The first half of filesys_open, up to dir_close. */
    method LookUpInRoot(name: string, good: nat) returns (inode: Option<nat>)
      requires Valid()
      modifies `files, `openInodes, `inodes, freeMap`onDisk, freeMap`stale, freeMap.bitmap.bits
      ensures Holds(RefsOf(inode)) && Quiet(old(View()), View()) && files == old(files)
      ensures Orphans(View()) == Orphans(old(View())) && Stable(old(View()), View())
      ensures inode.Some? ==> inode.value in inodes && NamedBy(entries, name, inodes[inode.value].sector)
      ensures inode.Some? ==> !NameFree(Seen(entries, good), name)
      ensures memory && !NameFree(Seen(entries, good), name) ==> inode.Some?
    {
      hide Inv, Owners, Orphans, Stable, NamedBy;
      ghost var s := View();
      var dir := DirOpenRoot();
      ghost var s1 := View();
      SameOrphans(s, s1);
      inode := None;
      if dir.Some? {
        inode := DirLookup(name, good);
        ghost var s2 := View();
        InvFacts(s1, multiset{});
        RootStaysOpen(s1, s2, dir.value);
        DirClose(dir.value, RefsOf(inode));
        AddedAndGone(s.files, dir.value, s1.files[dir.value]);
        StableAcross(s, s1, s2, View());
      }
    }

    /** filesys_open: a new handle on the file of that name. */
    method FilesysOpen(name: string, good: nat) returns (f: Option<nat>)
      requires Valid()
      modifies `files, `openInodes, `inodes, freeMap`onDisk, freeMap`stale, freeMap.bitmap.bits
      ensures Valid() && Quiet(old(View()), View())
      ensures Orphans(View()) == Orphans(old(View())) && Stable(old(View()), View())
      ensures f.None? ==> files == old(files)
      ensures f.Some? ==> f.value !in old(files) && f.value in files && !files[f.value].denyWrite
      ensures f.Some? ==> files == old(files)[f.value := files[f.value]] && files[f.value].inode in inodes
      ensures f.Some? ==> NamedBy(entries, name, inodes[files[f.value].inode].sector)
      ensures f.Some? ==> !NameFree(Seen(entries, good), name)
      ensures memory && !NameFree(Seen(entries, good), name) ==> f.Some?
    {
      hide Inv, Owners, Orphans, Stable, NamedBy;
      ghost var s := View();
      var inode := LookUpInRoot(name, good);
      ghost var s1 := View();
      if inode.Some? {
        NamedByIsKept(entries, name, inodes[inode.value].sector);
      }
      StayingCloses(s1, inode);
      f := FileOpen(inode);
      if f.Some? {
        AttachEffects(s1, f.value, inode.value);
      }
      StableTwice(s, s1, View());
    }

    /** filesys_remove */
    method FilesysRemove(name: string, io: EntryIo) returns (ok: bool)
      requires Valid()
      modifies `entries, `files, `openInodes, `inodes, freeMap`onDisk, freeMap`stale, freeMap.bitmap.bits
      ensures Valid() && files == old(files) && disk == old(disk)
      ensures ok ==> !NameFree(Seen(old(entries), io.lookupReads), name) && io.writes
      ensures memory && io.writes && !NameFree(Seen(old(entries), io.lookupReads), name) ==> ok
      ensures ok && intact ==> NameFree(entries, name)
      ensures ok ==> exists i: nat :: Removed(old(View()), View(), i, name)
      ensures !ok ==> Quiet(old(View()), View())
      ensures Orphans(View()) == Orphans(old(View())) && Stable(old(View()), View())
    {
      hide Inv, Owners, Orphans, Stable, Removed;
      ghost var s := View();
      var dir := DirOpenRoot();
      ghost var s1 := View();
      SameOrphans(s, s1);
      if dir.None? {
        return false;
      }
      ok := DirRemove(name, io);
      ghost var s2 := View();
      InvFacts(s1, multiset{});
      RootStaysOpen(s1, s2, dir.value);
      DirClose(dir.value, multiset{});
      AddedAndGone(s.files, dir.value, s1.files[dir.value]);
      StableAcross(s, s1, s2, View());
      if ok {
        RemovedAround(s, s1, s2, View(), dir.value, name);
      }
    }

    /** free_map_create, but that the file is opened later. */
    method FreeMapCreate() returns (ok: bool)
      requires freeMap.Valid() && !freeMap.fileOpen && DeviceOk()
      requires View() == Fs({FREE_MAP_SECTOR, ROOT_DIR_SECTOR}, map[], [], [], map[], map[], true)
      modifies `disk, device, freeMap`fileOpen, freeMap`onDisk, freeMap`stale, freeMap.bitmap.bits
      ensures DeviceOk()
      ensures ok ==> freeMap.Valid() && freeMap.fileOpen && !freeMap.stale
      ensures ok ==> FREE_MAP_SECTOR in disk && Placed(disk[FREE_MAP_SECTOR])
      ensures ok ==> Data(disk[FREE_MAP_SECTOR]) !! {FREE_MAP_SECTOR, ROOT_DIR_SECTOR}
      ensures ok ==> View() == Created(old(View()), FREE_MAP_SECTOR, disk[FREE_MAP_SECTOR])
      ensures ok ==> |View().used| == 2 + FreeMapSectors()
      ensures ok ==> 2 + FreeMapSectors() <= freeMap.bitmap.bitCnt
      ensures Sound() && 2 + FreeMapSectors() <= freeMap.bitmap.bitCnt ==> ok
    {
      hide HasRun, BytesToSectors, ElemCnt, Run, Placed;
      assert ROOT_DIR_SECTOR in View().used;
      SectorsNeeded(freeMap.bitmap.bitCnt);
      FirstSectors(freeMap.bitmap.bitCnt, FreeMapSectors());
      ok := InodeCreate(FREE_MAP_SECTOR, 4 * ElemCnt(freeMap.bitmap.bitCnt));
      if ok {
        RunSize(disk[FREE_MAP_SECTOR].start, FreeMapSectors());
        TwoMore(Data(disk[FREE_MAP_SECTOR]));
        ghost var s := View();
        ok := freeMap.Create();
        assert View() == s;
      }
    }

    function FreeMapSectors(): nat {
      BytesToSectors(4 * ElemCnt(freeMap.bitmap.bitCnt))
    }

    /** do_format and free_map_open, without opening the free map file twice: an
        empty root directory, a free map file, and nothing else in use. */
    method Format() returns (ok: bool)
      requires freeMap.Valid() && !freeMap.fileOpen && DeviceOk()
      requires View() == Fs({FREE_MAP_SECTOR, ROOT_DIR_SECTOR}, map[], [], [], map[], map[], true) && freeMapFile == None
      modifies this, device, freeMap, freeMap.bitmap.bits
      ensures ok ==> Valid() && Orphans(View()) == {} && |entries| == ROOT_ENTRIES && NoneInUse(entries)
      ensures ok ==> |freeMap.Used()| == 3 + FreeMapSectors()
      ensures ok ==> freeMapFile.Some? && files.Keys == {freeMapFile.value} && HeldOpen(View(), FREE_MAP_SECTOR)
      ensures Sound() ==> (ok <==> 3 + FreeMapSectors() <= freeMap.bitmap.bitCnt)
    {
      hide Inv, Orphans, HasRun, HeldOpen, Owners, Kept, BytesToSectors, ElemCnt, Run, FreshDisk, Created;
      ghost var s0 := View();
      ok := FreeMapCreate();
      if !ok {
        return;
      }
      ghost var s1, inode := View(), disk[FREE_MAP_SECTOR];
      SectorsNeeded(freeMap.bitmap.bitCnt);
      OneMoreSector(s1.used, freeMap.bitmap.bitCnt);
      ok := InodeCreate(ROOT_DIR_SECTOR, ROOT_ENTRIES * DIR_ENTRY_SIZE);
      if !ok {
        return;
      }
      RunSize(disk[ROOT_DIR_SECTOR].start, 1);
      TwoInodes(s0, s1, View(), inode, disk[ROOT_DIR_SECTOR], freeMap.bitmap.bitCnt);
      entries := seq(ROOT_ENTRIES, _ => Entry(false, "", 0));
      FormattedOk(View());
      ok := OpenFreeMap();
    }

    /** free_map_open */
    method OpenFreeMap() returns (ok: bool)
      requires Valid() && files == map[] && !freeMap.stale
      modifies `files, `freeMapFile, `openInodes, `inodes, freeMap, freeMap.bitmap.bits
      ensures ok ==> Valid() && Quiet(old(View()), View()) && Orphans(View()) == Orphans(old(View()))
      ensures ok ==> freeMapFile.Some? && files.Keys == {freeMapFile.value} && HeldOpen(View(), FREE_MAP_SECTOR)
      ensures memory ==> ok
    {
      hide Inv, Owners, Orphans, Stable;
      ghost var s := View();
      var inode := InodeOpen(FREE_MAP_SECTOR);
      ghost var s1 := View();
      OpenEffects(s, s1, FREE_MAP_SECTOR, inode);
      var f := FileOpen(inode);
      ok := f.Some?;
      if ok {
        AttachEffects(s1, f.value, inode.value);
        ghost var s2 := View();
        freeMap.Open();
        assert View() == s2;
        freeMapFile := f;
        assert files.Keys == {f.value} && files[f.value].inode == inode.value;
      }
    }
  }

  /** An input that shows it: on a freshly formatted disk of 64 sectors, creating a
      file of one sector under a name of 15 characters fails and loses a sector. */
  method CreateLeaks() returns (fs: FileSystem, success: bool)
    ensures fresh(fs) && fs.Valid() && fs.Sound()
    ensures !success && |Orphans(fs.View())| == 1
  {
    hide Inv, Orphans, Owners, HasRoom, HasRun, Stable, HeldOpen, CreateDone, NoneInUse, BytesToSectors, ElemCnt;
    fs := new FileSystem(seq(64, _ => seq(SECTOR, _ => 0)), true, true);
    SmallSizes();
    var ok := fs.Format();
    RoomLeft(fs.freeMap.Used(), 64);
    var name := "a name too long";
    assert |name| == 15;
    ghost var made, leak;
    success, made, leak := fs.FilesysCreate(name, 512, EntryIo(ROOT_ENTRIES, ROOT_ENTRIES, true));
  }

  /** A run that shows the other harm: the search for a slot is cut at once while file
      b is created after file a.  Both creates succeed, file a has no entry any more, and
      its sectors are nobody's. */
  method CutScanLosesFile() returns (fs: FileSystem, ghost lost: set<nat>)
    ensures fresh(fs) && fs.Valid() && fs.Sound() && !fs.intact
    ensures NameFree(fs.entries, "a") && !NameFree(fs.entries, "b")
    ensures |lost| == 2 && lost <= Orphans(fs.View())
  {
    hide Inv, Orphans, Owners, HasRoom, HasRun, Stable, HeldOpen, BytesToSectors, ElemCnt, Adds, Made, Whole, NameFree;
    hide NoneInUse, CanAdd;
    fs := new FileSystem(seq(64, _ => seq(SECTOR, _ => 0)), true, true);
    SmallSizes();
    var ok := fs.Format();
    ghost var s := fs.View();
    RoomLeft(s.used, 64);
    var whole := EntryIo(ROOT_ENTRIES, ROOT_ENTRIES, true);
    FirstAdds(s.entries, whole);
    var success, made, leak := fs.FilesysCreate("a", 512, whole);
    ghost var s1 := fs.View();
    ghost var h :| Made(s, s1, 0, h, "a", 512);
    FirstFile(s, s1, h, fs.freeMapFile.value);
    RoomLeft(s1.used, 64);
    var cut := EntryIo(ROOT_ENTRIES, 0, true);
    SecondAdds(s1.entries, h, cut);
    success, made, leak := fs.FilesysCreate("b", 512, cut);
    ghost var h2 :| Made(s1, fs.View(), 0, h2, "b", 512);
    lost := Extent(s1.disk, h);
    FirstIsLost(s1, fs.View(), h, h2, fs.freeMapFile.value);
  }

  lemma FirstAdds(entries: seq<Entry>, io: EntryIo)
    requires |entries| == ROOT_ENTRIES && NoneInUse(entries) && Whole(entries, io)
    ensures Adds(entries, "a", io) && Slot(entries, io.slotReads, 0) == 0
  {
  }

  /** The only entry in use is file a, of one sector. */
  ghost predicate OnlyFirst(s: Fs, h: nat, f: nat) {
    && |s.entries| == ROOT_ENTRIES && s.entries[0] == Entry(true, "a", h)
    && (forall i :: 0 < i < ROOT_ENTRIES ==> !s.entries[i].inUse)
    && h in s.disk && |Extent(s.disk, h)| == 2 && s.files.Keys == {f} && HeldOpen(s, FREE_MAP_SECTOR)
  }

  lemma FirstFile(s: Fs, s1: Fs, h: nat, f: nat)
    requires Made(s, s1, 0, h, "a", 512) && NoneInUse(s.entries) && |s.entries| == ROOT_ENTRIES
    requires s.files.Keys == {f} && s1.files == s.files && HeldOpen(s, FREE_MAP_SECTOR) && Stable(s, s1)
    ensures OnlyFirst(s1, h, f) && |s1.used| == |s.used| + 2
  {
    hide Owners, Orphans;
    SmallSizes();
    ExtentSize(s1.disk, h);
    assert |s.used + Extent(s1.disk, h)| == |s.used| + |Extent(s1.disk, h)|;
  }

  lemma SecondAdds(entries: seq<Entry>, h: nat, io: EntryIo)
    requires |entries| == ROOT_ENTRIES && entries[0] == Entry(true, "a", h)
    requires forall i :: 0 < i < ROOT_ENTRIES ==> !entries[i].inUse
    requires io == EntryIo(ROOT_ENTRIES, 0, true)
    ensures Adds(entries, "b", io) && Slot(entries, 0, 0) == 0
  {
    assert "a" != "b";
  }

  lemma FirstIsLost(s: Fs, s': Fs, h: nat, h2: nat, f: nat)
    requires Inv(s, multiset{}) && OnlyFirst(s, h, f) && Made(s, s', 0, h2, "b", 512)
    ensures !s'.intact && Extent(s.disk, h) <= Orphans(s')
    ensures NameFree(s'.entries, "a") && !NameFree(s'.entries, "b")
  {
    hide Inv, Owners, Orphans;
    NotSystem(s, 0);
    OpenMeansHeld(s, h);
    assert !HeldOpen(s, h);
    assert Displaced(s, 0) == {h};
    assert s'.entries[0].inUse && s'.entries[0].name == "b" && "a" != "b";
    assert Extents(s.disk, {h}) == Extent(s.disk, h);
  }

  lemma SmallSizes()
    ensures BytesToSectors(512) == 1 && BytesToSectors(4 * ElemCnt(64)) == 1
  {
  }

  /** Room for two sectors is room for a file of one. */
  lemma RoomLeft(used: set<nat>, size: nat)
    requires (forall x :: x in used ==> x < size) && |used| + 1 < size
    ensures HasRoom(used, size, 1)
  {
    OneMoreSector(used, size);
    var p: nat :| p + 1 <= size && Run(p, 1) !! used;
    assert p in Run(p, 1);
    var h := LeastUnused(used, p);
    OneMoreSector(used + {h}, size);
  }

  lemma {:induction false} LeastUnused(used: set<nat>, p: nat) returns (h: nat)
    requires p !in used
    ensures h <= p && FirstUnused(used, h)
  {
    h := 0;
    while h in used
      invariant h <= p && forall x: nat :: x < h ==> x in used
      decreases p - h
    {
      h := h + 1;
    }
  }

  lemma FirstSectors(size: nat, cnt: nat)
    requires size >= 2 && cnt > 0
    ensures HasRun({FREE_MAP_SECTOR, ROOT_DIR_SECTOR}, size, cnt) <==> 2 + cnt <= size
  {
    if 2 + cnt <= size {
      assert Run(2, cnt) !! {FREE_MAP_SECTOR, ROOT_DIR_SECTOR};
    }
    forall p: nat | p < 2 ensures !(Run(p, cnt) !! {FREE_MAP_SECTOR, ROOT_DIR_SECTOR}) {
      assert p in Run(p, cnt);
    }
  }

  lemma TwoMore(data: set<nat>)
    requires data !! {FREE_MAP_SECTOR, ROOT_DIR_SECTOR}
    ensures |{FREE_MAP_SECTOR, ROOT_DIR_SECTOR} + data| == 2 + |data|
  {
  }

  lemma SectorsNeeded(size: nat)
    requires size > 0
    ensures BytesToSectors(4 * ElemCnt(size)) > 0 && BytesToSectors(ROOT_ENTRIES * DIR_ENTRY_SIZE) == 1
  {
  }

  lemma TwoInodes(s0: Fs, s1: Fs, s2: Fs, freeMap: DiskInode, root: DiskInode, size: nat)
    requires s0.disk == map[] && s0.used == {FREE_MAP_SECTOR, ROOT_DIR_SECTOR}
    requires s1 == Created(s0, FREE_MAP_SECTOR, freeMap) && s2 == Created(s1, ROOT_DIR_SECTOR, root)
    requires Placed(freeMap) && Data(freeMap) !! s0.used && Placed(root) && s1.used !! Data(root)
    requires forall x :: x in s2.used ==> x < size
    ensures FreshDisk(s2.disk, s2.used)
    ensures |s2.used| == |s1.used| + |Data(root)| <= size
  {
    hide Data, Placed;
    RunSize(0, size);
    SubsetSize(s2.used, Run(0, size));
  }

  lemma OneMoreSector(used: set<nat>, size: nat)
    requires forall x :: x in used ==> x < size
    ensures HasRun(used, size, 1) <==> |used| < size
  {
    RunSize(0, size);
    SubsetSize(used, Run(0, size));
    forall p: nat ensures Run(p, 1) == {p} {
    }
    if |used| < size {
      if forall x :: x in Run(0, size) ==> x in used {
        SubsetSize(Run(0, size), used);
      }
      var p :| p in Run(0, size) && p !in used;
      assert Run(p, 1) !! used;
    } else {
      forall p: nat | p + 1 <= size ensures !(Run(p, 1) !! used) {
        assert p in Run(0, size);
      }
    }
  }

  lemma NoHeader(used: set<nat>, size: nat, cnt: nat)
    requires forall p: nat :: p + 1 <= size ==> !(Run(p, 1) !! used)
    ensures !HasRoom(used, size, cnt)
  {
    forall h: nat | h < size ensures h in used {
      assert !(Run(h, 1) !! used);
    }
  }

  lemma RoomAfterHeader(used: set<nat>, size: nat, cnt: nat, h: nat)
    requires h + 1 <= size && h !in used
    requires forall p: nat :: p + 1 <= size && Run(p, 1) !! used ==> h <= p
    ensures HasRoom(used, size, cnt) <==> HasRun(used + {h}, size, cnt)
  {
    forall x: nat | x < h ensures x in used {
      assert Run(x, 1) == {x};
    }
    assert FirstUnused(used, h);
  }

  lemma AddressExists(taken: set<nat>)
    ensures exists a: nat :: a !in taken
  {
    var n := |taken| + 1;
    RunSize(0, n);
    if forall a: nat :: a in taken {
      SubsetSize(Run(0, n), taken);
    }
  }

  lemma ReopenAttach(s: Fs, f: nat, id: nat)
    requires Inv(s, multiset{}) && id in s.inodes && f !in s.files
    requires Owners(Reopened(s, id)) == Owners(s)
    ensures var s' := Attached(Reopened(s, id), f, id); Quiet(s, s') && Stable(s, s')
  {
    hide Inv;
    InvFacts(s, multiset{});
  }

  // -------------------------------------------------------- bytes of files

  ghost predicate Fits(data: DiskInode, d: Sectors) {
    OnDisk(d, data.start, data.length)
  }

  /** The bytes of a file. */
  ghost function Bytes(data: DiskInode, d: Sectors): seq<byte> {
    if Fits(data, d) then InodeIO.File(d, data.start, data.length) else []
  }

  /** The file is there and reads as zeros. */
  ghost predicate Blank(data: DiskInode, d: Sectors) {
    Fits(data, d) && forall k :: 0 <= k < |Bytes(data, d)| ==> Bytes(data, d)[k] == 0
  }

  lemma ZeroSectorsBlank(data: DiskInode, d: Sectors)
    requires Fits(data, d)
    requires forall x: nat :: data.start <= x < data.start + BytesToSectors(data.length) ==> d[x] == seq(SECTOR, _ => 0)
    ensures Blank(data, d)
  {
    forall k | 0 <= k < |Bytes(data, d)| ensures Bytes(data, d)[k] == 0 {
      var x := data.start + k / SECTOR;
      assert x < data.start + BytesToSectors(data.length);
      assert d[x] == seq(SECTOR, _ => 0);
    }
  }

  lemma RunFound(used: set<nat>, size: nat, cnt: nat, r: Option<nat>)
    requires r.Some? ==> r.value + cnt <= size && Run(r.value, cnt) !! used
    ensures r.Some? ==> HasRun(used, size, cnt)
    ensures (forall p: nat :: p + cnt <= size ==> !(Run(p, cnt) !! used)) ==> !HasRun(used, size, cnt)
  {
  }

  ghost function Overwritten(file: seq<byte>, ofs: nat, data: seq<byte>): seq<byte> {
    if data != [] && ofs + |data| <= |file| then file[..ofs] + data + file[ofs + |data|..] else file
  }

  /** Only these sectors may differ. */
  ghost predicate KeptBut(changed: set<nat>, d: Sectors, d': Sectors) {
    |d'| == |d| && forall x: nat :: x < |d| && x !in changed ==> d'[x] == d[x]
  }

  lemma OtherSectorsKept(d: Sectors, data: DiskInode, ofs: nat, bytes: seq<byte>)
    requires Fits(data, d) && (bytes != [] ==> ofs + |bytes| <= data.length)
    ensures KeptBut(Data(data), d, Patch(d, data.start, ofs, bytes))
  {
    if bytes == [] {
      PatchNothing(d, data.start, ofs);
    } else {
      forall x: nat | x < |d| && x !in Data(data) ensures Patch(d, data.start, ofs, bytes)[x] == d[x] {
        OtherSectorOfPatch(d, data.start, data.length, ofs, bytes, x);
      }
    }
  }

  lemma DenialCounted(s: Fs, id: nat)
    requires Inv(s, multiset{}) && id in s.inodes
    ensures s.inodes[id].denyWriteCnt > 0 <==> DenyingOn(s.files, id) != {}
  {
    assert CountsOk(s.inodes[id], s.files, id, multiset{});
  }

  lemma OpenOwns(s: Fs, id: nat)
    requires Inv(s, multiset{}) && id in s.inodes
    ensures var n := s.inodes[id];
      && n.sector in s.disk && Placed(n.data) && Data(n.data) <= Extent(s.disk, n.sector) <= s.used
  {
    hide Counts, DirOk, Placed;
    assert s.inodes[id].sector in OpenSectors(s.inodes);
    assert s.inodes[id].sector in Owners(s);
  }

  lemma OpenFits(s: Fs, id: nat, d: Sectors, size: nat)
    requires Inv(s, multiset{}) && id in s.inodes && WellSized(d) && size <= |d|
    requires forall x :: x in s.used ==> x < size
    ensures Fits(s.inodes[id].data, d)
  {
    hide Inv;
    OpenOwns(s, id);
    var data := s.inodes[id].data;
    var cnt := BytesToSectors(data.length);
    if cnt > 0 {
      assert data.start + cnt - 1 in Data(data);
    }
  }

  lemma OpenApart(s: Fs, i: nat, j: nat)
    requires Inv(s, multiset{}) && i in s.inodes && j in s.inodes && i != j
    ensures Data(s.inodes[i].data) !! Data(s.inodes[j].data)
  {
    OpenOwns(s, i);
    OpenOwns(s, j);
    OwnersApart(s, i, j);
  }

  lemma OwnersApart(s: Fs, i: nat, j: nat)
    requires Inv(s, multiset{}) && i in s.inodes && j in s.inodes && i != j
    requires s.inodes[i].sector in s.disk && s.inodes[j].sector in s.disk
    ensures Extent(s.disk, s.inodes[i].sector) !! Extent(s.disk, s.inodes[j].sector)
  {
    hide Counts, DirOk, Placed, Faithful, Extent;
    assert s.inodes[i].sector in OpenSectors(s.inodes) && s.inodes[j].sector in OpenSectors(s.inodes);
    assert s.inodes[i].sector in Owners(s) && s.inodes[j].sector in Owners(s);
  }

  /** A write to one file keeps the bytes of a file in other sectors. */
  lemma OtherBytes(d: Sectors, data: DiskInode, other: DiskInode, ofs: nat, bytes: seq<byte>)
    requires Fits(data, d) && Fits(other, d) && Data(data) !! Data(other)
    requires bytes != [] ==> ofs + |bytes| <= data.length
    ensures Bytes(other, Patch(d, data.start, ofs, bytes)) == Bytes(other, d)
  {
    var n, m := BytesToSectors(data.length), BytesToSectors(other.length);
    if bytes == [] {
      PatchNothing(d, data.start, ofs);
    } else if m > 0 {
      RunsApart(data.start, n, other.start, m);
      OtherFileOfPatch(d, data.start, data.length, ofs, bytes, other.start, other.length);
    } else {
      assert other.length == 0;
    }
  }

  lemma RunsApart(p: nat, n: nat, q: nat, m: nat)
    requires n > 0 && m > 0 && Run(p, n) !! Run(q, m)
    ensures p + n <= q || q + m <= p
  {
    assert p in Run(p, n) && q in Run(q, m);
  }

  /** The sectors that the last close of a removed inode releases. */
  lemma OwnerReleases(s: Fs, extra: Refs, id: nat)
    requires Inv(s, extra) && id in extra
    ensures var n := s.inodes[id];
      && n.sector in s.disk && n.data == s.disk[n.sector]
      && n.sector in s.used && Placed(n.data)
      && Data(n.data) <= s.used - {n.sector}
      && Extent(s.disk, n.sector) == {n.sector} + Data(n.data)
  {
    var n := s.inodes[id];
    assert n.sector in OpenSectors(s.inodes);
    assert n.sector in Owners(s);
  }

  /** Some file is open on the inode of header sector h. */
  ghost predicate HeldOpen(s: Fs, h: nat) {
    exists f :: f in s.files && s.files[f].inode in s.inodes && s.inodes[s.files[f].inode].sector == h
  }

  lemma OpenMeansHeld(s: Fs, h: nat)
    requires Inv(s, multiset{})
    ensures h in OpenSectors(s.inodes) <==> HeldOpen(s, h)
  {
    if h in OpenSectors(s.inodes) {
      var id :| id in s.inodes && s.inodes[id].sector == h;
      assert CountsOk(s.inodes[id], s.files, id, multiset{});
      assert HandlesOn(s.files, id) != {};
      var f :| f in HandlesOn(s.files, id);
    }
  }

  /** Entry i is the first one in use of that name. */
  ghost predicate FirstNamed(entries: seq<Entry>, name: string, i: nat) {
    && i < |entries| && entries[i].inUse && entries[i].name == name
    && forall j :: 0 <= j < i && entries[j].inUse ==> entries[j].name != name
  }

  /** The first entry of that name stands for the inode of header sector h. */
  ghost predicate NamedBy(entries: seq<Entry>, name: string, h: nat) {
    exists i :: 0 <= i < |entries| && FirstNamed(entries, name, i) && entries[i].sector == h
  }

  /** The file of entry i, the first of this name, is removed. */
  ghost predicate Removed(s: Fs, s': Fs, i: nat, name: string) {
    && FirstNamed(s.entries, name, i)
    && s'.entries == s.entries[i := s.entries[i].(inUse := false)]
    && var h := s.entries[i].sector;
       if HeldOpen(s, h) then s'.used == s.used && Owners(s') == Owners(s)
       else h in s.disk && s'.used == s.used - Extent(s.disk, h) && Owners(s') == Owners(s) - {h}
  }

  lemma NamedIsKept(entries: seq<Entry>, i: nat)
    requires i < |entries| && entries[i].inUse
    ensures entries[i].sector in Kept(entries)
  {
  }

  lemma NothingHappens(s: Fs, extra: Refs)
    requires Inv(s, extra)
    ensures Stable(s, s)
  {
    hide Inv;
    InvFacts(s, extra);
  }

  /** file_allow_write, whether or not the file denied writes. */
  lemma AllowEffects(s: Fs, f: nat)
    requires Inv(s, multiset{}) && f in s.files
    ensures Quiet(s, s) && Same(s, s, s.files[f].inode)
    ensures !s.files[f].denyWrite ==> s.files == s.files[f := File(s.files[f].inode, false)]
    ensures s.files[f].denyWrite && s.inodes[s.files[f].inode].denyWriteCnt > 0 ==>
      var s' := Denied(s, f, false);
      && s'.files == s.files[f := File(s.files[f].inode, false)]
      && (Owners(s') == Owners(s) ==> Quiet(s, s')) && Stable(s, s') && Same(s, s', s.files[f].inode)
  {
    hide Inv, Owners;
    InvFacts(s, multiset{});
  }

  lemma EraseEffects(s: Fs, i: nat, id: nat)
    requires Inv(s, multiset{id}) && i < |s.entries| && s.entries[i].inUse && id in s.inodes
    requires s.entries[i].sector == s.inodes[id].sector
    ensures var s' := Erased(s, i, id);
      && Inv(s', multiset{id}) && Owners(s') == Owners(s) && Orphans(s') == Orphans(s) && Stable(s, s')
  {
    hide Inv, Owners, Orphans;
    InvFacts(s, multiset{id});
    EraseKeeps(s, i, id);
    SameOrphans(s, Erased(s, i, id));
  }

  lemma RemoveDone(s: Fs, s1: Fs, s2: Fs, s3: Fs, i: nat, id: nat, name: string, wrote: bool)
    requires Inv(s, multiset{}) && FirstNamed(s.entries, name, i)
    requires Quiet(s, s1) && Stable(s, s1) && s1.files == s.files && Orphans(s1) == Orphans(s)
    requires id in s1.inodes && s1.inodes[id].sector == s.entries[i].sector && !s1.inodes[id].removed
    requires s1.inodes[id].openCnt == 1 <==> s.entries[i].sector !in OpenSectors(s.inodes)
    requires s2 == if wrote then Erased(s1, i, id) else s1
    requires Owners(s2) == Owners(s1) && Orphans(s2) == Orphans(s1) && Stable(s1, s2)
    requires s2.inodes[id].openCnt > 0 && s2.inodes[id].sector in s2.disk
    requires s3 == Closed(s2, id) && Stable(s2, s3) && Orphans(s3) == Orphans(s2) + Stranded(s2, id)
    requires Owners(s3) == if LastOf(s2, id) then Owners(s2) - {s2.inodes[id].sector} else Owners(s2)
    requires LastOf(s2, id) <==> Frees(s2.inodes[id])
    ensures s3.files == s.files && s3.disk == s.disk && Stable(s, s3) && Orphans(s3) == Orphans(s)
    ensures wrote ==> Removed(s, s3, i, name) && (s.intact ==> NameFree(s3.entries, name))
    ensures !wrote ==> Quiet(s, s3)
  {
    hide Orphans, Owners, Stable, HeldOpen;
    OpenMeansHeld(s, s.entries[i].sector);
    StableTwice(s, s1, s2);
    StableTwice(s, s2, s3);
    if s.intact {
      NameGone(s, i);
    }
  }

  /** How a create ends: made says whether the inode could be made, and leak is what
      a refusing directory leaves in use for nobody. */
  ghost predicate CreateDone(s: Fs, s': Fs, name: string, size: nat, io: EntryIo,
                             success: bool, made: bool, leak: set<nat>) {
    && (success <==> made && Adds(s.entries, name, io))
    && (success ==> leak == {} && exists h :: Made(s, s', Slot(s.entries, io.slotReads, 0), h, name, size))
    && (!success ==> s'.entries == s.entries && s'.intact == s.intact && Owners(s') == Owners(s))
    && (!success ==> |leak| == (if made then BytesToSectors(size) else 0))
    && (!success ==> leak !! s.used && s'.used == s.used + leak && Orphans(s') == Orphans(s) + leak)
  }

  /** A create loses sectors exactly in this case: there is room for a file that is
      not empty, and the directory does not take the name. */
  ghost predicate Leaks(s: Fs, size: nat, name: string, initialSize: nat, io: EntryIo) {
    HasRoom(s.used, size, BytesToSectors(initialSize)) && !Adds(s.entries, name, io) && initialSize > 0
  }

  lemma LeakExactlyWhen(s: Fs, s': Fs, size: nat, name: string, initialSize: nat, io: EntryIo,
                        success: bool, made: bool, leak: set<nat>)
    requires CreateDone(s, s', name, initialSize, io, success, made, leak)
    requires made <==> HasRoom(s.used, size, BytesToSectors(initialSize))
    ensures leak != {} <==> Leaks(s, size, name, initialSize, io)
    ensures !success ==>
      |Orphans(s')| == |Orphans(s)| + (if Leaks(s, size, name, initialSize, io) then BytesToSectors(initialSize) else 0)
  {
    hide Orphans, HasRoom, Adds, Made;
    OrphansAreUsed(s);
    if !success {
      assert |Orphans(s) + leak| == |Orphans(s)| + |leak|;
    }
  }

  /** File h, with this name and size, is new in slot i, and so are all its sectors.  A
      file whose entry that was loses its name, and if it is not open its sectors are
      nobody's. */
  ghost predicate Made(s: Fs, s': Fs, i: nat, h: nat, name: string, size: nat) {
    && i < |s.entries| && s'.entries == s.entries[i := Entry(true, name, h)]
    && s'.intact == (s.intact && !s.entries[i].inUse && NameFree(s.entries, name))
    && h in s'.disk && s'.disk == s.disk[h := s'.disk[h]] && s'.disk[h].length == size
    && h !in Data(s'.disk[h])
    && s.used !! Extent(s'.disk, h) && s'.used == s.used + Extent(s'.disk, h)
    && Owners(s') == Owners(s) - Displaced(s, i) + {h}
    && Orphans(s') == Orphans(s) + Extents(s.disk, Displaced(s, i))
  }

  lemma MadeFrom(s: Fs, s': Fs, i: nat, h: nat, inode: DiskInode, name: string)
    requires h !in s.used && (s.used + {h}) !! Data(inode) && i < |s.entries|
    requires s' == Added(Created(s.(used := s.used + {h}), h, inode), i, name, h)
    requires Owners(s') == Owners(s) - Displaced(s, i) + {h}
    requires Orphans(s') == Orphans(s) + Extents(s.disk, Displaced(s, i))
    ensures Made(s, s', i, h, name, inode.length)
  {
    hide Owners, Orphans, Displaced, Extents;
  }

  /** What the creates promise when no scan is cut short: no other entry changes, the
      directory takes exactly the names it should, and no sector becomes nobody's but
      those of a refused file. */
  ghost predicate WholeCreate(s: Fs, s': Fs, name: string, success: bool, made: bool, leak: set<nat>) {
    && (success <==> made && CanAdd(s.entries, name))
    && s'.intact == s.intact
    && (forall i :: 0 <= i < |s.entries| && s.entries[i].inUse ==> i < |s'.entries| && s'.entries[i] == s.entries[i])
    && Owners(s) <= Owners(s') && Orphans(s') == Orphans(s) + leak
  }

  lemma WholeCreates(s: Fs, s': Fs, name: string, size: nat, io: EntryIo, success: bool, made: bool, leak: set<nat>)
    requires CreateDone(s, s', name, size, io, success, made, leak) && Whole(s.entries, io)
    ensures WholeCreate(s, s', name, success, made, leak)
  {
    hide Owners, Orphans, Adds, CanAdd;
    WholeAdds(s.entries, name, io);
    if success {
      var i := Slot(s.entries, io.slotReads, 0);
      var h :| Made(s, s', i, h, name, size);
      assert Displaced(s, i) == {};
      assert Extents(s.disk, {}) == {};
    }
  }

  /** How the part of a create between allocating and releasing header h ends. */
  ghost predicate CreatedIn(s: Fs, s': Fs, h: nat, name: string, size: nat, io: EntryIo,
                            success: bool, made: bool, leak: set<nat>) {
    var i := Slot(s.entries, io.slotReads, 0);
    && (success <==> made && Adds(s.entries, name, io))
    && (success ==>
          && leak == {} && i < |s.entries|
          && h in s'.disk && s'.disk[h].length == size && s.used !! Data(s'.disk[h])
          && s' == Added(Created(s, h, s'.disk[h]), i, name, h)
          && Owners(s') == Owners(s) - Displaced(s, i) + {h}
          && Orphans(s') == Orphans(s) - {h} + Extents(s.disk, Displaced(s, i)))
    && (!success ==>
          && s'.entries == s.entries && s'.intact == s.intact && Owners(s') == Owners(s) && Nobodys(s', h)
          && |leak| == (if made then BytesToSectors(size) else 0)
          && leak !! s.used && s'.used == s.used + leak
          && Orphans(s') == Orphans(s) + leak)
  }

  /** Sectors in use keep their bytes. */
  ghost predicate SectorsKept(used: set<nat>, d: Sectors, d': Sectors) {
    |d'| == |d| && forall x: nat :: x < |d| && x in used ==> d'[x] == d[x]
  }

  lemma SectorsStay(used: set<nat>, d: Sectors)
    ensures SectorsKept(used, d, d)
  {
  }

  lemma OthersKept(used: set<nat>, h: nat, inode: DiskInode, d: Sectors, d': Sectors)
    requires used !! Data(inode) && KeptBut({h} + Data(inode), d, d')
    ensures SectorsKept(used - {h}, d, d')
  {
  }

  /** The file of entry i reads as zeros. */
  ghost predicate NewIsBlank(s: Fs, i: nat, d: Sectors) {
    i < |s.entries| && s.entries[i].sector in s.disk && Blank(s.disk[s.entries[i].sector], d)
  }

  lemma NewStaysBlank(s: Fs, s': Fs, i: nat, d: Sectors)
    requires Quiet(s, s')
    ensures NewIsBlank(s, i, d) ==> NewIsBlank(s', i, d)
  {
    hide Owners, Blank;
  }

  lemma AddedIsBlank(s: Fs, i: nat, name: string, h: nat, d: Sectors)
    requires i < |s.entries| && h in s.disk && Blank(s.disk[h], d)
    ensures NewIsBlank(Added(s, i, name, h), i, d)
  {
    hide Blank;
  }

  lemma NoInode(s: Fs, h: nat, name: string, size: nat, io: EntryIo)
    requires Nobodys(s, h)
    ensures CreatedIn(s, s, h, name, size, io, false, false, {})
  {
    hide Owners, Orphans, Nobodys, Adds;
    assert s.used + {} == s.used && Orphans(s) + {} == Orphans(s);
  }

  lemma EntryRefused(s: Fs, s1: Fs, h: nat, inode: DiskInode, name: string, io: EntryIo)
    requires Ownable(s1, h) && s1 == Created(s, h, inode) && s.used !! Data(inode) && !Adds(s.entries, name, io)
    requires Owners(s1) == Owners(s) && Orphans(s1) == Orphans(s) + Data(inode)
    ensures CreatedIn(s, s1, h, name, inode.length, io, false, true, Data(inode))
  {
    hide Owners, Orphans, Nobodys, Adds, Ownable;
    RunSize(inode.start, BytesToSectors(inode.length));
    OwnableIsNobodys(s1, h);
  }

  lemma EntryAdded(s: Fs, s1: Fs, s2: Fs, h: nat, inode: DiskInode, name: string, io: EntryIo)
    requires Inv(s1, multiset{}) && Ownable(s1, h) && s1 == Created(s, h, inode) && Adds(s.entries, name, io)
    requires Nobodys(s, h) && h in s.used && Owners(s1) == Owners(s) && s.used !! Data(inode)
    requires Orphans(s1) == Orphans(s) + Data(inode)
    requires var i := Slot(s.entries, io.slotReads, 0);
      && i < |s.entries| && s2 == Added(s1, i, name, h)
      && Displaced(s1, i) <= Owners(s1) && Owners(s2) == Owners(s1) - Displaced(s1, i) + {h}
    ensures CreatedIn(s, s2, h, name, inode.length, io, true, true, {})
  {
    hide Owners, Orphans, Ownable, Adds, Nobodys, Inv, Displaced, Data;
    OrphansAreUsed(s);
    HeaderIsOrphan(s, s1, h);
    CreateAddOrphans(s, s1, s2, h, inode, Slot(s.entries, io.slotReads, 0));
  }

  lemma HeaderIsOrphan(s: Fs, s1: Fs, h: nat)
    requires Nobodys(s, h) && h in s.used && Ownable(s1, h) && Owners(s1) == Owners(s)
    ensures h in Orphans(s) && h !in Owners(s)
  {
    hide Owners;
    assert h in Extent(s1.disk, h);
  }

  lemma ExtentsSame(disk: map<nat, DiskInode>, disk': map<nat, DiskInode>, owners: set<nat>)
    requires forall o :: o in owners ==> (o in disk <==> o in disk') && (o in disk ==> disk'[o] == disk[o])
    ensures Extents(disk', owners) == Extents(disk, owners)
  {
    forall o | o in owners && o in disk ensures Extent(disk', o) == Extent(disk, o) {
    }
    forall x ensures x in Extents(disk', owners) <==> x in Extents(disk, owners) {
      if o :| o in owners && o in disk && x in Extent(disk, o) {
        assert o in disk' && x in Extent(disk', o);
      }
      if o :| o in owners && o in disk' && x in Extent(disk', o) {
        assert o in disk && x in Extent(disk, o);
      }
    }
  }

  lemma DisplacedOwns(s: Fs, i: nat)
    ensures Displaced(s, i) <= Owners(s)
  {
    if i < |s.entries| && s.entries[i].inUse {
      NamedIsKept(s.entries, i);
    }
  }

  lemma NotMadeOrphan(s: Fs, h: nat, inode: DiskInode)
    requires Orphans(s) <= s.used && s.used !! Data(inode)
    ensures Orphans(s) + Data(inode) - ({h} + Data(inode)) == Orphans(s) - {h}
  {
    hide Orphans, Data;
  }

  lemma CreateAddOrphans(s: Fs, s1: Fs, s2: Fs, h: nat, inode: DiskInode, i: nat)
    requires Inv(s1, multiset{}) && Ownable(s1, h) && s1 == Created(s, h, inode)
    requires h !in Owners(s) && Owners(s1) == Owners(s) && h in Orphans(s) && s.used !! Data(inode)
    requires Orphans(s1) == Orphans(s) + Data(inode) && Orphans(s) <= s.used
    requires s2.disk == s1.disk && s2.used == s1.used && Displaced(s1, i) <= Owners(s1)
    requires Owners(s2) == Owners(s1) - Displaced(s1, i) + {h}
    ensures Orphans(s2) == Orphans(s) - {h} + Extents(s.disk, Displaced(s, i))
    ensures Owners(s2) == Owners(s) - Displaced(s, i) + {h}
  {
    hide Owners, Orphans, Ownable, Data, Extents;
    AddOrphans(s1, s2, Displaced(s1, i), h);
    var gone := Displaced(s, i);
    assert gone == Displaced(s1, i) && h !in gone;
    ExtentsSame(s.disk, s1.disk, gone);
    NotMadeOrphan(s, h, inode);
  }

  lemma CreateSucceeds(s: Fs, s': Fs, h: nat, name: string, size: nat, io: EntryIo, made: bool, leak: set<nat>)
    requires h !in s.used && CreatedIn(s.(used := s.used + {h}), s', h, name, size, io, true, made, leak)
    requires Owners(s.(used := s.used + {h})) == Owners(s)
    requires Orphans(s.(used := s.used + {h})) == Orphans(s) + {h}
    ensures CreateDone(s, s', name, size, io, true, made, leak)
  {
    hide Owners, Orphans, Nobodys, Adds, Extents;
    OrphansAreUsed(s);
    var i := Slot(s.entries, io.slotReads, 0);
    assert Displaced(s.(used := s.used + {h}), i) == Displaced(s, i);
    assert Orphans(s) + {h} - {h} == Orphans(s);
    MadeFrom(s, s', i, h, s'.disk[h], name);
  }

  lemma CreateFails(s: Fs, s': Fs, h: nat, name: string, size: nat, io: EntryIo, made: bool, leak: set<nat>)
    requires h !in s.used && CreatedIn(s.(used := s.used + {h}), s', h, name, size, io, false, made, leak)
    requires Owners(s.(used := s.used + {h})) == Owners(s) && Inv(s', multiset{})
    requires Orphans(s.(used := s.used + {h})) == Orphans(s) + {h}
    ensures var s'' := s'.(used := s'.used - {h});
      && h in s'.used && Inv(s'', multiset{}) && CreateDone(s, s'', name, size, io, false, made, leak)
  {
    hide Owners, Orphans, Nobodys, Inv, Added, Created, Made, Adds;
    OrphansAreUsed(s);
    HeaderReturned(s', h);
    TakenBack(s.used, h, leak);
    TakenBack(Orphans(s), h, leak);
  }

  lemma TakenBack(x: set<nat>, h: nat, leak: set<nat>)
    requires h !in x && h !in leak
    ensures x + {h} + leak - {h} == x + leak
  {
  }

  lemma NotCreated(s: Fs, s': Fs, name: string, size: nat, io: EntryIo)
    requires Quiet(s, s') && Orphans(s') == Orphans(s)
    ensures CreateDone(s, s', name, size, io, false, false, {})
  {
    hide Owners, Orphans;
  }

  /** The handle on the root directory, open meanwhile, makes no difference. */
  lemma CreateAround(s: Fs, s1: Fs, s2: Fs, s3: Fs, dir: nat, name: string, size: nat, io: EntryIo,
                     success: bool, made: bool, leak: set<nat>)
    requires Quiet(s, s1) && Quiet(s2, s3) && CreateDone(s1, s2, name, size, io, success, made, leak)
    requires Orphans(s1) == Orphans(s) && Orphans(s3) == Orphans(s2)
    requires Inv(s, multiset{}) && Inv(s1, multiset{}) && Stable(s, s1)
    requires dir !in s.files && dir in s1.files && s1.files == s.files[dir := s1.files[dir]]
    requires s1.files[dir].inode in s1.inodes && s1.inodes[s1.files[dir].inode].sector == ROOT_DIR_SECTOR
    ensures CreateDone(s, s3, name, size, io, success, made, leak)
  {
    hide Owners, Orphans, Inv, Stable, Displaced, Adds;
    if success {
      var i := Slot(s1.entries, io.slotReads, 0);
      var h :| Made(s1, s2, i, h, name, size);
      DisplacedBesides(s, s1, dir, i);
      assert Made(s, s3, i, h, name, size);
    }
  }

  lemma DisplacedBesides(s: Fs, s1: Fs, dir: nat, i: nat)
    requires Inv(s, multiset{}) && Inv(s1, multiset{}) && Stable(s, s1) && s1.entries == s.entries
    requires dir !in s.files && dir in s1.files && s1.files == s.files[dir := s1.files[dir]]
    requires s1.files[dir].inode in s1.inodes && s1.inodes[s1.files[dir].inode].sector == ROOT_DIR_SECTOR
    ensures Displaced(s1, i) == Displaced(s, i)
  {
    hide Inv, Stable, HeldOpen, OpenSectors;
    if i < |s.entries| && s.entries[i].inUse {
      var h := s.entries[i].sector;
      NotSystem(s, i);
      HeldBesides(s, s1, dir, h);
      OpenMeansHeld(s, h);
      OpenMeansHeld(s1, h);
    }
  }

  lemma NameGone(s: Fs, i: nat)
    requires Inv(s, multiset{}) && s.intact && i < |s.entries| && s.entries[i].inUse
    ensures NameFree(s.entries[i := s.entries[i].(inUse := false)], s.entries[i].name)
  {
  }

  lemma InvFacts(s: Fs, extra: Refs)
    requires Inv(s, extra)
    ensures Listed(s.openInodes, s.inodes)
    ensures forall f :: f in s.files ==> s.files[f].inode in s.inodes
    ensures forall id :: id in extra ==> id in s.inodes
    ensures forall id :: id in s.inodes ==> s.inodes[id].sector in s.disk && s.inodes[id].openCnt > 0
    ensures forall id :: id in s.inodes ==> (s.inodes[id].removed ==> s.inodes[id].sector !in Kept(s.entries))
  {
    forall id | id in s.inodes ensures s.inodes[id].openCnt > 0 {
      assert CountsOk(s.inodes[id], s.files, id, extra);
    }
  }

  /** Closing a reference, besides what it does to the inode. */
  lemma CloseEffects(s: Fs, extra: Refs, id: nat)
    requires Inv(s, extra) && id in extra
    ensures id in s.inodes && s.inodes[id].openCnt > 0 && s.inodes[id].sector in s.disk
    ensures Inv(Closed(s, id), extra - multiset{id})
    ensures Orphans(Closed(s, id)) == Orphans(s) + Stranded(s, id) && Stable(s, Closed(s, id))
    ensures Owners(Closed(s, id)) == if LastOf(s, id) then Owners(s) - {s.inodes[id].sector} else Owners(s)
    ensures Frees(s.inodes[id]) ==> LastOf(s, id)
  {
    hide Inv, Owners, Orphans;
    InvFacts(s, extra);
    CloseKeeps(s, extra, id);
    CloseOrphans(s, extra, id);
    InvFacts(Closed(s, id), extra - multiset{id});
  }

  lemma IntactStrandsNone(s: Fs, extra: Refs, id: nat)
    requires Inv(s, extra) && id in s.inodes
    ensures s.intact ==> Stranded(s, id) == {}
  {
    RemovedIsLast(s, id);
  }

  lemma SameStranded(s: Fs, s': Fs, id: nat)
    requires id in s.inodes && id in s'.inodes && s'.entries == s.entries && s'.disk == s.disk
    requires s'.inodes[id] == s.inodes[id].(denyWriteCnt := s'.inodes[id].denyWriteCnt)
    ensures Stranded(s', id) == Stranded(s, id) && LastOf(s', id) == LastOf(s, id)
  {
  }

  lemma StableTwice(s: Fs, s1: Fs, s2: Fs)
    requires Stable(s, s1) && Stable(s1, s2) && s.files.Keys <= s1.files.Keys
    ensures Stable(s, s2)
  {
  }

  lemma OneReference(id: nat)
    ensures multiset{} + multiset{id} == multiset{id} && multiset{id} - multiset{id} == multiset{}
  {
  }

  lemma CloseDone(s: Fs, s1: Fs, s2: Fs, s3: Fs, f: nat, id: nat)
    requires f in s.files && s.files[f].inode == id && id in s.inodes && Quiet(s, s1) && Same(s, s1, id)
    requires s1.files == s.files[f := File(id, false)] && Stable(s, s1) && s2 == Detached(s1, f) && Stable(s2, s3)
    requires Owners(s2) == Owners(s1) && s2.inodes[id].openCnt > 0 && s2.inodes[id].sector in s2.disk
    requires s3 == Closed(s2, id) && Orphans(s3) == Orphans(s2) + Stranded(s2, id)
    requires Owners(s3) == if LastOf(s2, id) then Owners(s2) - {s2.inodes[id].sector} else Owners(s2)
    ensures s3.files == s.files - {f} && s3.used == s.used - FreedBy(s, f) && Stable(s, s3)
    ensures Orphans(s3) == Orphans(s) + Stranded(s, id)
    ensures Owners(s3) == if LastOf(s, id) then Owners(s) - {s.inodes[id].sector} else Owners(s)
  {
    hide Owners, Orphans, Stable, LastOf, Stranded;
    SameOrphans(s, s1);
    SameOrphans(s1, s2);
    StableClose(s, s1, s2, s3, f);
    SameStranded(s, s2, id);
  }

  lemma StableClose(s: Fs, s1: Fs, s2: Fs, s3: Fs, f: nat)
    requires Stable(s, s1) && f in s1.files && s2 == Detached(s1, f) && Stable(s2, s3)
    requires s1.files.Keys == s.files.Keys && s3.files == s2.files
    ensures Stable(s, s3)
  {
  }

  /** Opening an inode that stays. */
  lemma OpenEffects(s: Fs, s': Fs, sector: nat, r: Option<nat>)
    requires Inv(s, multiset{}) && sector in Kept(s.entries)
    requires OpenStep(s, s', sector, r)
    ensures Quiet(s, s') && Orphans(s') == Orphans(s) && Stable(s, s') && s'.files == s.files
    ensures r.Some? ==> r.value in s'.inodes && s'.inodes[r.value].sector == sector && !s'.inodes[r.value].removed
    ensures r.Some? ==> (s'.inodes[r.value].openCnt == 1 <==> sector !in OpenSectors(s.inodes))
  {
    hide Inv, Owners, Orphans;
    InvFacts(s, multiset{});
    if r.Some? {
      if r.value in s.inodes {
        ReopenKeeps(s, r.value);
      } else {
        OpenKeeps(s, r.value, sector);
      }
    }
    SameOrphans(s, s');
  }

  lemma AttachEffects(s: Fs, f: nat, id: nat)
    requires Inv(s, multiset{id}) && f !in s.files
    ensures Quiet(s, Attached(s, f, id)) && Orphans(Attached(s, f, id)) == Orphans(s) && Stable(s, Attached(s, f, id))
  {
    hide Inv, Orphans;
    InvFacts(s, multiset{id});
    SameOrphans(s, Attached(s, f, id));
  }

  lemma AddedAndGone(m: map<nat, File>, f: nat, v: File)
    requires f !in m
    ensures m[f := v] - {f} == m
  {
  }

  lemma RootIsKept(s: Fs, extra: Refs, f: nat)
    requires Inv(s, extra) && f in s.files
    requires s.files[f].inode in s.inodes ==> s.inodes[s.files[f].inode].sector == ROOT_DIR_SECTOR
    ensures s.files[f].inode in s.inodes && !LastOf(s, s.files[f].inode) && !Frees(s.inodes[s.files[f].inode])
  {
    hide Inv;
    InvFacts(s, extra);
  }

  ghost predicate NoneInUse(entries: seq<Entry>) {
    forall i :: 0 <= i < |entries| ==> !entries[i].inUse
  }

  /** Two inodes, each with sectors of its own. */
  ghost predicate FreshDisk(disk: map<nat, DiskInode>, used: set<nat>) {
    && disk.Keys == {FREE_MAP_SECTOR, ROOT_DIR_SECTOR}
    && Placed(disk[FREE_MAP_SECTOR]) && Placed(disk[ROOT_DIR_SECTOR])
    && {FREE_MAP_SECTOR, ROOT_DIR_SECTOR} !! Data(disk[FREE_MAP_SECTOR])
    && {FREE_MAP_SECTOR, ROOT_DIR_SECTOR} + Data(disk[FREE_MAP_SECTOR]) !! Data(disk[ROOT_DIR_SECTOR])
    && used == {FREE_MAP_SECTOR, ROOT_DIR_SECTOR} + Data(disk[FREE_MAP_SECTOR]) + Data(disk[ROOT_DIR_SECTOR])
  }

  lemma FreshOwnership(disk: map<nat, DiskInode>, used: set<nat>)
    requires FreshDisk(disk, used)
    ensures Ownership(disk, {FREE_MAP_SECTOR, ROOT_DIR_SECTOR}, used)
    ensures FREE_MAP_SECTOR in disk && ROOT_DIR_SECTOR in disk
    ensures used == Extent(disk, FREE_MAP_SECTOR) + Extent(disk, ROOT_DIR_SECTOR)
  {
  }

  lemma FreshDirectory(entries: seq<Entry>)
    requires NoneInUse(entries)
    ensures DirOk(entries, true) && Kept(entries) == {FREE_MAP_SECTOR, ROOT_DIR_SECTOR}
  {
  }

  /** A freshly formatted disk. */
  lemma FormattedOk(s: Fs)
    requires s.openInodes == [] && s.inodes == map[] && s.files == map[] && NoneInUse(s.entries)
    requires FreshDisk(s.disk, s.used) && s.intact
    ensures Inv(s, multiset{}) && Orphans(s) == {}
  {
    hide FreshDisk, NoneInUse, DirOk, Kept, Ownership;
    FreshOwnership(s.disk, s.used);
    FreshDirectory(s.entries);
    assert Owners(s) == {FREE_MAP_SECTOR, ROOT_DIR_SECTOR};
    NoOrphans(s);
  }

  lemma NoOrphans(s: Fs)
    requires Owners(s) == {FREE_MAP_SECTOR, ROOT_DIR_SECTOR} && FREE_MAP_SECTOR in s.disk && ROOT_DIR_SECTOR in s.disk
    requires s.used == Extent(s.disk, FREE_MAP_SECTOR) + Extent(s.disk, ROOT_DIR_SECTOR)
    ensures Orphans(s) == {}
  {
    hide Owners, Extent;
  }

  /** Giving up the reference to an inode that has a name changes no owner. */
  lemma StayingCloses(s: Fs, inode: Option<nat>)
    requires Inv(s, RefsOf(inode))
    requires inode.Some? ==> inode.value in s.inodes && s.inodes[inode.value].sector in Kept(s.entries)
    ensures inode.None? ==> Stable(s, s)
    ensures inode.Some? ==> var s' := Closed(s, inode.value);
      s'.files == s.files && Quiet(s, s') && Orphans(s') == Orphans(s) && Stable(s, s')
  {
    hide Inv, Owners, Orphans, Stable, Kept;
    if inode.Some? {
      InvFacts(s, RefsOf(inode));
      CloseEffects(s, RefsOf(inode), inode.value);
    } else {
      NothingHappens(s, multiset{});
    }
  }

  lemma NamedByIsKept(entries: seq<Entry>, name: string, h: nat)
    requires NamedBy(entries, name, h)
    ensures h in Kept(entries)
  {
  }

  lemma RootStaysOpen(s: Fs, s': Fs, f: nat)
    requires Stable(s, s') && f in s.files && f in s'.files && s.files[f].inode in s.inodes
    ensures s'.files[f].inode == s.files[f].inode && s.files[f].inode in s'.inodes
    ensures s'.inodes[s.files[f].inode].sector == s.inodes[s.files[f].inode].sector
  {
  }

  lemma StableAcross(s: Fs, s1: Fs, s2: Fs, s3: Fs)
    requires Stable(s, s1) && Stable(s1, s2) && Stable(s2, s3)
    requires s.files.Keys <= s1.files.Keys && s1.files.Keys <= s2.files.Keys
    ensures Stable(s, s3)
  {
    StableTwice(s, s1, s2);
    StableTwice(s, s2, s3);
  }

  /** The handle on the root directory does not count for another file. */
  lemma RemovedAround(s: Fs, s1: Fs, s2: Fs, s3: Fs, dir: nat, name: string)
    requires Inv(s, multiset{}) && Quiet(s, s1) && Stable(s, s1) && Quiet(s2, s3)
    requires dir !in s.files && dir in s1.files && s1.files == s.files[dir := s1.files[dir]]
    requires s1.files[dir].inode in s1.inodes && s1.inodes[s1.files[dir].inode].sector == ROOT_DIR_SECTOR
    requires exists i: nat :: Removed(s1, s2, i, name)
    ensures exists i: nat :: Removed(s, s3, i, name)
  {
    var i: nat :| Removed(s1, s2, i, name);
    var h := s.entries[i].sector;
    NotSystem(s, i);
    HeldBesides(s, s1, dir, h);
    hide Inv, Owners, Stable, HeldOpen;
    assert Removed(s, s3, i, name);
  }

  lemma NotSystem(s: Fs, i: nat)
    requires Inv(s, multiset{}) && i < |s.entries| && s.entries[i].inUse
    ensures s.entries[i].sector != ROOT_DIR_SECTOR && s.entries[i].sector != FREE_MAP_SECTOR
    ensures forall f :: f in s.files ==> s.files[f].inode in s.inodes
  {
    assert EntryOk(s.entries[i]);
  }

  lemma HeldBesides(s: Fs, s1: Fs, dir: nat, h: nat)
    requires Stable(s, s1) && (forall f :: f in s.files ==> s.files[f].inode in s.inodes) && h != ROOT_DIR_SECTOR
    requires dir !in s.files && dir in s1.files && s1.files == s.files[dir := s1.files[dir]]
    requires s1.files[dir].inode in s1.inodes && s1.inodes[s1.files[dir].inode].sector == ROOT_DIR_SECTOR
    ensures HeldOpen(s1, h) <==> HeldOpen(s, h)
  {
    if HeldOpen(s, h) {
      var f :| f in s.files && s.files[f].inode in s.inodes && s.inodes[s.files[f].inode].sector == h;
      assert f in s1.files;
    }
    if HeldOpen(s1, h) {
      var f :| f in s1.files && s1.files[f].inode in s1.inodes && s1.inodes[s1.files[f].inode].sector == h;
      assert f in s.files;
    }
  }

  lemma StableAround(s: Fs, s1: Fs, s2: Fs, s3: Fs, dir: nat)
    requires Stable(s, s1) && Stable(s2, s3) && s2.files == s1.files && s2.inodes == s1.inodes
    requires s.files.Keys <= s1.files.Keys && s3.files == s.files
    ensures Stable(s, s3)
  {
  }

  lemma OrphansAreUsed(s: Fs)
    ensures Orphans(s) <= s.used
  {
  }

  lemma HeaderTaken(s: Fs, h: nat)
    requires Inv(s, multiset{}) && h !in s.used
    ensures var s' := s.(used := s.used + {h});
      && Inv(s', multiset{}) && Owners(s') == Owners(s) && Nobodys(s', h) && Orphans(s') == Orphans(s) + {h}
  {
    UsedGrows(s, {h});
    var s' := s.(used := s.used + {h});
    forall x ensures x in Orphans(s') <==> x in Orphans(s) || x == h {
      assert Nobodys(s', x) <==> Nobodys(s, x);
    }
  }

  lemma HeaderReturned(s: Fs, h: nat)
    requires Inv(s, multiset{}) && Nobodys(s, h)
    ensures var s' := s.(used := s.used - {h});
      && Inv(s', multiset{}) && Owners(s') == Owners(s) && Orphans(s') == Orphans(s) - {h}
  {
    UsedShrinks(s, h);
    var s' := s.(used := s.used - {h});
    forall x ensures x in Orphans(s') <==> x in Orphans(s) && x != h {
      assert Nobodys(s', x) <==> Nobodys(s, x);
    }
  }

  lemma OwnableIsNobodys(s: Fs, h: nat)
    requires Ownable(s, h)
    ensures Nobodys(s, h) && h in s.used
  {
    assert h in Extent(s.disk, h);
  }

  /** Files that are named or open, removed or not, have used sectors of their
      own: their headers and data are pairwise disjoint. */
  lemma FilesOwnTheirSectors(s: Fs, name: string, h: nat, g: nat)
    requires Inv(s, multiset{})
    requires HeldOpen(s, h) || NamedBy(s.entries, name, h)
    requires g in Kept(s.entries) || HeldOpen(s, g)
    ensures h in s.disk && Extent(s.disk, h) <= s.used
    ensures |Extent(s.disk, h)| == 1 + BytesToSectors(s.disk[h].length)
    ensures g in s.disk && (g != h ==> Extent(s.disk, g) !! Extent(s.disk, h))
  {
    OpenMeansHeld(s, h);
    OpenMeansHeld(s, g);
    if NamedBy(s.entries, name, h) {
      NamedByIsKept(s.entries, name, h);
    }
    hide Counts, Listed, Faithful, DirOk, NamedBy, HeldOpen, OpenSectors, Kept, Extent;
    ExtentSize(s.disk, h);
  }
}
