/**
 inode_read_at and inode_write_at of filesys/inode.c, over a disk of 512-byte
 sectors.  Both go chunk by chunk, whole sectors directly and parts of sectors
 through a bounce buffer; they are proved to read and to patch one flat array
 of bytes, the file, and to leave every other byte of the disk alone.
 */
module InodeIO {
  import opened Common

  const SECTOR := 512   // BLOCK_SECTOR_SIZE

  type Sectors = seq<seq<byte>>

  ghost predicate WellSized(d: Sectors) {
    forall i :: 0 <= i < |d| ==> |d[i]| == SECTOR
  }

  /** bytes_to_sectors */
  function BytesToSectors(size: nat): (n: nat)
    ensures size <= SECTOR * n < size + SECTOR
  {
    (size + SECTOR - 1) / SECTOR
  }

  /** The data of the inode lie on the disk. */
  ghost predicate OnDisk(d: Sectors, start: nat, length: nat) {
    WellSized(d) && start + BytesToSectors(length) <= |d|
  }

  /** The file as one array of bytes. */
  ghost function File(d: Sectors, start: nat, length: nat): (r: seq<byte>)
    requires OnDisk(d, start, length)
    ensures |r| == length
  {
    seq(length, k requires 0 <= k < length => d[start + k / SECTOR][k % SECTOR])
  }

  /** Is byte k of sector s the byte at a file offset from ofs up to ofs + n? */
  predicate Hit(start: nat, ofs: nat, n: nat, s: nat, k: nat) {
    start <= s && ofs <= (s - start) * SECTOR + k < ofs + n
  }

  /** Sector s of the disk with data written at file offset ofs. */
  ghost function PatchSector(d: Sectors, start: nat, ofs: nat, data: seq<byte>, s: nat): (r: seq<byte>)
    requires WellSized(d) && s < |d|
    ensures |r| == SECTOR
  {
    seq(SECTOR, k requires 0 <= k < SECTOR =>
      if Hit(start, ofs, |data|, s, k) then data[(s - start) * SECTOR + k - ofs] else d[s][k])
  }

  ghost function Patch(d: Sectors, start: nat, ofs: nat, data: seq<byte>): (r: Sectors)
    requires WellSized(d)
    ensures |r| == |d| && WellSized(r)
  {
    seq(|d|, s requires 0 <= s < |d| => PatchSector(d, start, ofs, data, s))
  }

  // ------------------------------------------------ what reading and patching mean

  /** The file after a write: the old file with the data in place. */
  lemma FileOfPatch(d: Sectors, start: nat, length: nat, ofs: nat, data: seq<byte>)
    requires OnDisk(d, start, length) && ofs + |data| <= length
    ensures var f := File(d, start, length);
      File(Patch(d, start, ofs, data), start, length) == f[..ofs] + data + f[ofs + |data|..]
  {
    var f, d' := File(d, start, length), Patch(d, start, ofs, data);
    var f' := File(d', start, length);
    forall k | 0 <= k < length
      ensures f'[k] == if ofs <= k < ofs + |data| then data[k - ofs] else f[k]
    {
      assert d'[start + k / SECTOR] == PatchSector(d, start, ofs, data, start + k / SECTOR);
    }
  }

  /** A file in other sectors does not change. */
  lemma OtherFileOfPatch(d: Sectors, start: nat, length: nat, ofs: nat, data: seq<byte>, start': nat, length': nat)
    requires OnDisk(d, start, length) && OnDisk(d, start', length') && ofs + |data| <= length
    requires start + BytesToSectors(length) <= start' || start' + BytesToSectors(length') <= start
    ensures File(Patch(d, start, ofs, data), start', length') == File(d, start', length')
  {
    var d' := Patch(d, start, ofs, data);
    forall k | 0 <= k < length'
      ensures File(d', start', length')[k] == File(d, start', length')[k]
    {
      var s := start' + k / SECTOR;
      assert d'[s] == PatchSector(d, start, ofs, data, s);
    }
  }

  /** Nor does any sector outside the file's own. */
  lemma OtherSectorOfPatch(d: Sectors, start: nat, length: nat, ofs: nat, data: seq<byte>, s: nat)
    requires OnDisk(d, start, length) && ofs + |data| <= length && s < |d|
    requires s < start || start + BytesToSectors(length) <= s
    ensures Patch(d, start, ofs, data)[s] == d[s]
  {
    assert PatchSector(d, start, ofs, data, s) == d[s];
  }

  /** Two writes in a row are one. */
  lemma PatchJoins(d: Sectors, start: nat, ofs: nat, a: seq<byte>, b: seq<byte>)
    requires WellSized(d)
    ensures Patch(Patch(d, start, ofs, a), start, ofs + |a|, b) == Patch(d, start, ofs, a + b)
  {
    var d1 := Patch(d, start, ofs, a);
    forall s | 0 <= s < |d|
      ensures PatchSector(d1, start, ofs + |a|, b, s) == PatchSector(d, start, ofs, a + b, s)
    {
      assert d1[s] == PatchSector(d, start, ofs, a, s);
    }
  }

  lemma PatchNothing(d: Sectors, start: nat, ofs: nat)
    requires WellSized(d)
    ensures Patch(d, start, ofs, []) == d
  {
    forall s | 0 <= s < |d| ensures PatchSector(d, start, ofs, [], s) == d[s] {
    }
  }

  /** A chunk that stays within one sector. */
  lemma PatchOneSector(d: Sectors, start: nat, ofs: nat, data: seq<byte>)
    requires WellSized(d) && start + ofs / SECTOR < |d| && ofs % SECTOR + |data| <= SECTOR
    ensures var s := start + ofs / SECTOR; var o := ofs % SECTOR;
      Patch(d, start, ofs, data) == d[s := d[s][..o] + data + d[s][o + |data|..]]
  {
    var s0, o := start + ofs / SECTOR, ofs % SECTOR;
    forall s | 0 <= s < |d|
      ensures PatchSector(d, start, ofs, data, s) ==
        d[s0 := d[s0][..o] + data + d[s0][o + |data|..]][s]
    {
    }
  }

  /** A chunk of the file is a slice of one sector. */
  lemma FileChunk(d: Sectors, start: nat, length: nat, ofs: nat, n: nat)
    requires OnDisk(d, start, length) && ofs + n <= length && ofs % SECTOR + n <= SECTOR && n > 0
    ensures start + ofs / SECTOR < |d|
    ensures File(d, start, length)[ofs..ofs + n] == d[start + ofs / SECTOR][ofs % SECTOR..ofs % SECTOR + n]
  {
    var f := File(d, start, length);
    var g := f[ofs..ofs + n];
    forall k | 0 <= k < n ensures g[k] == d[start + ofs / SECTOR][ofs % SECTOR + k] {
      WithinSector(ofs, k);
    }
  }

  lemma WithinSector(ofs: nat, k: nat)
    requires ofs % SECTOR + k < SECTOR
    ensures (ofs + k) / SECTOR == ofs / SECTOR && (ofs + k) % SECTOR == ofs % SECTOR + k
  {
  }

  // --------------------------------------------------------------- how much

  /** The bytes that lie both in the request and in the file. */
  function Available(size: int, ofs: nat, length: nat): nat {
    if size <= 0 || length <= ofs then 0 else Least(size, length - ofs)
  }

  /** The bytes transferred: all of those, unless there is no memory for a
      bounce buffer, and then only the whole sectors before the first part. */
  function Transferred(size: int, ofs: nat, length: nat, bounceOk: bool): (n: nat)
    ensures n <= Available(size, ofs, length)
  {
    var n := Available(size, ofs, length);
    if bounceOk then n else if ofs % SECTOR != 0 then 0 else n - n % SECTOR
  }

  /** In numbers: everything asked for up to the end of the file, if there is a bounce
      buffer; if not, as many whole sectors of that, if it begins with a sector. */
  lemma TransferredMeaning(size: int, ofs: nat, length: nat)
    ensures Transferred(size, ofs, length, true) == if 0 < size && ofs < length then Least(size, length - ofs) else 0
    ensures var all, n := Transferred(size, ofs, length, true), Transferred(size, ofs, length, false);
      && n % SECTOR == 0
      && (ofs % SECTOR == 0 ==> n <= all < n + SECTOR)
      && (ofs % SECTOR != 0 ==> n == 0)
  {
  }

  /** One chunk less to do. */
  lemma TransferredStep(size: int, ofs: nat, length: nat, bounceOk: bool, chunk: nat)
    requires 0 < chunk == Least(size, Least(length - ofs, SECTOR - ofs % SECTOR))
    requires bounceOk || (ofs % SECTOR == 0 && chunk == SECTOR)
    ensures Transferred(size, ofs, length, bounceOk) == chunk + Transferred(size - chunk, ofs + chunk, length, bounceOk)
  {
  }

  /** What reading and writing use of struct inode. */
  class Inode {
    const start: nat
    const length: nat
    const denyWriteCnt: nat

    constructor (start: nat, length: nat, denyWriteCnt: nat)
      ensures this.start == start && this.length == length && this.denyWriteCnt == denyWriteCnt
    {
      this.start, this.length, this.denyWriteCnt := start, length, denyWriteCnt;
    }

    /** byte_to_sector; None is the sector number -1. */
    function ByteToSector(pos: nat): Option<nat> {
      if pos < length then Some(start + pos / SECTOR) else None
    }

    /** inode_read_at */
    method ReadAt(disk: Disk, buffer: array<byte>, size: int, offset: nat, bounceOk: bool) returns (bytesRead: nat)
      requires OnDisk(disk.sectors, start, length) && size <= buffer.Length
      modifies buffer
      ensures bytesRead == Transferred(size, offset, length, bounceOk) <= buffer.Length
      ensures buffer[..] == Slice(File(disk.sectors, start, length), offset, bytesRead) + old(buffer[..])[bytesRead..]
    {
      ghost var file, orig := File(disk.sectors, start, length), buffer[..];
      var left, ofs := size, offset;
      bytesRead := 0;
      while left > 0
        invariant ofs == offset + bytesRead && left == size - bytesRead && bytesRead <= buffer.Length
        invariant bytesRead + Transferred(left, ofs, length, bounceOk) == Transferred(size, offset, length, bounceOk)
        invariant bytesRead > 0 ==> ofs <= length
        invariant forall i :: 0 <= i < buffer.Length ==>
          buffer[i] == if i < bytesRead then file[offset + i] else orig[i]
        decreases left
      {
        var chunkSize := ReadStep(disk, buffer, bytesRead, left, ofs, bounceOk);
        if chunkSize == 0 {
          break;
        }
        left := left - chunkSize;
        ofs := ofs + chunkSize;
        bytesRead := bytesRead + chunkSize;
      }
    }

    /** One round of the loop: the number of bytes read, 0 to break. */
    method ReadStep(disk: Disk, buffer: array<byte>, at: nat, left: nat, ofs: nat, bounceOk: bool)
      returns (chunkSize: nat)
      requires OnDisk(disk.sectors, start, length) && 0 < left && at + left <= buffer.Length
      modifies buffer
      ensures chunkSize == 0 ==> Transferred(left, ofs, length, bounceOk) == 0
      ensures chunkSize > 0 ==> chunkSize <= left && ofs + chunkSize <= length
      ensures chunkSize > 0 ==>
        Transferred(left, ofs, length, bounceOk) ==
          chunkSize + Transferred(left - chunkSize, ofs + chunkSize, length, bounceOk)
      ensures forall i :: 0 <= i < buffer.Length ==>
        buffer[i] == if at <= i < at + chunkSize then File(disk.sectors, start, length)[ofs + i - at] else old(buffer[i])
    {
      var size := Least(left, Least(length - ofs, SECTOR - ofs % SECTOR));
      if size <= 0 {
        return 0;
      }
      var chunk := ReadChunk(disk, ofs, size, bounceOk);
      if chunk.None? {
        return 0;
      }
      TransferredStep(left, ofs, length, bounceOk, size);
      CopyInto(buffer, at, chunk.value);
      chunkSize := size;
    }

    /** One chunk: a whole sector read directly, or part of a sector by way of
        the bounce buffer.  None if there is no memory for that buffer; it is
        allocated once, and bounceOk says whether it could be. */
    method ReadChunk(disk: Disk, ofs: nat, chunkSize: nat, bounceOk: bool) returns (chunk: Option<seq<byte>>)
      requires OnDisk(disk.sectors, start, length)
      requires 0 < chunkSize && ofs + chunkSize <= length && ofs % SECTOR + chunkSize <= SECTOR
      ensures chunk.Some? <==> bounceOk || (ofs % SECTOR == 0 && chunkSize == SECTOR)
      ensures chunk.Some? ==> chunk.value == File(disk.sectors, start, length)[ofs..ofs + chunkSize]
    {
      var sectorIdx := ByteToSector(ofs);
      var sectorOfs := ofs % SECTOR;
      FileChunk(disk.sectors, start, length, ofs, chunkSize);
      if sectorOfs == 0 && chunkSize == SECTOR {
        var whole := disk.Read(sectorIdx.value);
        chunk := Some(whole);
      } else if bounceOk {
        var bounce := disk.Read(sectorIdx.value);
        chunk := Some(bounce[sectorOfs..sectorOfs + chunkSize]);
      } else {
        chunk := None;
      }
    }

    /** inode_write_at */
    method WriteAt(disk: Disk, buffer: seq<byte>, size: int, offset: nat, bounceOk: bool) returns (bytesWritten: nat)
      requires OnDisk(disk.sectors, start, length) && size <= |buffer|
      modifies disk
      ensures bytesWritten == if denyWriteCnt > 0 then 0 else Transferred(size, offset, length, bounceOk)
      ensures bytesWritten <= |buffer|
      ensures disk.sectors == Patch(old(disk.sectors), start, offset, buffer[..bytesWritten])
    {
      ghost var d := disk.sectors;
      PatchNothing(d, start, offset);
      bytesWritten := 0;
      if denyWriteCnt > 0 {
        return;
      }
      var left, ofs := size, offset;
      while left > 0
        invariant ofs == offset + bytesWritten && left == size - bytesWritten && bytesWritten <= |buffer|
        invariant bytesWritten + Transferred(left, ofs, length, bounceOk) == Transferred(size, offset, length, bounceOk)
        invariant disk.sectors == Patch(d, start, offset, buffer[..bytesWritten])
        decreases left
      {
        var chunkSize := Least(left, Least(length - ofs, SECTOR - ofs % SECTOR));
        if chunkSize <= 0 {
          break;
        }
        var chunk := buffer[bytesWritten..bytesWritten + chunkSize];
        var ok := WriteChunk(disk, ofs, chunk, bounceOk);
        if !ok {
          break;
        }
        PatchJoins(d, start, offset, buffer[..bytesWritten], chunk);
        assert buffer[..bytesWritten + chunkSize] == buffer[..bytesWritten] + chunk;
        TransferredStep(left, ofs, length, bounceOk, chunkSize);
        left := left - chunkSize;
        ofs := ofs + chunkSize;
        bytesWritten := bytesWritten + chunkSize;
      }
    }

    /** One chunk: a whole sector written directly, or part of a sector merged
        into what the bounce buffer holds of it. */
    method WriteChunk(disk: Disk, ofs: nat, chunk: seq<byte>, bounceOk: bool) returns (ok: bool)
      requires OnDisk(disk.sectors, start, length)
      requires 0 < |chunk| && ofs + |chunk| <= length && ofs % SECTOR + |chunk| <= SECTOR
      modifies disk
      ensures ok <==> bounceOk || (ofs % SECTOR == 0 && |chunk| == SECTOR)
      ensures disk.sectors == if ok then Patch(old(disk.sectors), start, ofs, chunk) else old(disk.sectors)
    {
      InRange(disk.sectors, start, length, ofs);
      PatchOneSector(disk.sectors, start, ofs, chunk);
      var sectorIdx := ByteToSector(ofs);
      var sectorOfs := ofs % SECTOR;
      var sectorLeft := SECTOR - sectorOfs;
      ok := true;
      if sectorOfs == 0 && |chunk| == SECTOR {
        ghost var was := disk.sectors[sectorIdx.value];
        assert was[..0] + chunk + was[SECTOR..] == chunk;
        disk.Write(sectorIdx.value, chunk);
      } else if bounceOk {
        var bounce := BounceContents(disk, sectorIdx.value, sectorOfs > 0 || |chunk| < sectorLeft);
        bounce := bounce[..sectorOfs] + chunk + bounce[sectorOfs + |chunk|..];
        disk.Write(sectorIdx.value, bounce);
      } else {
        ok := false;
      }
    }
  }

  lemma InRange(d: Sectors, start: nat, length: nat, ofs: nat)
    requires OnDisk(d, start, length) && ofs < length
    ensures start + ofs / SECTOR < |d|
  {
  }

  /** The sector that is on the disk, or one of zeros. */
  method BounceContents(disk: Disk, idx: nat, fromDisk: bool) returns (whole: seq<byte>)
    requires idx < |disk.sectors| && |disk.sectors[idx]| == SECTOR
    ensures |whole| == SECTOR && (fromDisk ==> whole == disk.sectors[idx])
    ensures !fromDisk ==> forall k :: 0 <= k < SECTOR ==> whole[k] == 0
  {
    if fromDisk {
      whole := disk.Read(idx);
    } else {
      whole := seq(SECTOR, _ => 0);
    }
  }

  /** The n bytes of a file from an offset on. */
  ghost function Slice(file: seq<byte>, ofs: nat, n: nat): (r: seq<byte>)
    requires n == 0 || ofs + n <= |file|
    ensures |r| == n
  {
    if n == 0 then [] else file[ofs..ofs + n]
  }

  /** memcpy into the caller's buffer. */
  method CopyInto(buffer: array<byte>, at: nat, data: seq<byte>)
    requires at + |data| <= buffer.Length
    modifies buffer
    ensures forall i :: 0 <= i < buffer.Length ==>
      buffer[i] == if at <= i < at + |data| then data[i - at] else old(buffer[i])
  {
    forall i | 0 <= i < |data| {
      buffer[at + i] := data[i];
    }
  }

  /** fs_device */
  class Disk {
    var sectors: Sectors

    constructor (d: Sectors)
      ensures sectors == d
    {
      sectors := d;
    }

    method Read(idx: nat) returns (data: seq<byte>)
      requires idx < |sectors|
      ensures data == sectors[idx]
    {
      data := sectors[idx];
    }

    method Write(idx: nat, data: seq<byte>)
      requires idx < |sectors| && |data| == SECTOR
      modifies this
      ensures sectors == old(sectors)[idx := data]
    {
      sectors := sectors[idx := data];
    }
  }
}
