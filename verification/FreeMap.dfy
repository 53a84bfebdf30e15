/**
 The free map of filesys/free-map.c: a bitmap of the sectors in use and the
 copy of it in the free map file.
 */
module FreeMap {
  import opened Bitmap
  import opened Bits
  import opened Common
  import opened InodeIO

  class FreeMap {
    const bitmap: Bitmap
    const reliable: bool      // a write of the free map file always gets its bounce buffer
    var fileOpen: bool        // free_map_file is not null
    var onDisk: seq<Word>     // what the free map file holds
    ghost var stale: bool     // the last write of the free map file failed

    /** Unless its last write failed, the file says the same as the bitmap; no write
        of a reliable file fails. */
    ghost predicate Valid()
      reads this, bitmap.bits
    {
      && bitmap.Valid() && |onDisk| == ElemCnt(bitmap.bitCnt)
      && (fileOpen && !stale ==> BitsOf(onDisk, bitmap.bitCnt) == bitmap.View())
      && (fileOpen && reliable ==> !stale)
    }

    /** So in every state that calls can lead to, the file of a reliable disk says
        the same as the bitmap. */
    lemma FileMirrorsMap()
      requires Valid() && fileOpen && reliable
      ensures BitsOf(onDisk, bitmap.bitCnt) == bitmap.View()
      ensures OnesFrom(0, BitsOf(onDisk, bitmap.bitCnt)) == Used()
    {
    }

    /** The sectors in use. */
    ghost function Used(): (r: set<nat>)
      requires bitmap.Valid()
      reads bitmap.bits
      ensures forall x :: x in r ==> x < bitmap.bitCnt
    {
      OnesFrom(0, bitmap.View())
    }

    /** free_map_init: sectors 0 and 1 are taken. */
    constructor (size: nat, reliable: bool)
      requires size >= 2
      ensures Valid() && fresh(bitmap.bits) && bitmap.bitCnt == size && this.reliable == reliable
      ensures Used() == {0, 1} && !fileOpen
    {
      bitmap := new Bitmap(size);
      this.reliable := reliable;
      fileOpen := false;
      onDisk := seq(ElemCnt(size), _ => 0);
      stale := false;
      new;
      bitmap.Mark(0);
      bitmap.Mark(1);
      forall x ensures x in Used() <==> x == 0 || x == 1 {
        assert x in Used() <==> BitOn(0, bitmap.View(), x);
      }
    }

    /** bitmap_write to the free map file: an inode_write_at of the whole file, which
        needs a bounce buffer unless the file is of whole sectors.  Without one the
        whole sectors are written and the rest of the file stays as it was. */
    method WriteFile() returns (ok: bool)
      requires bitmap.Valid() && |onDisk| == ElemCnt(bitmap.bitCnt)
      modifies `onDisk, `stale
      ensures Valid() && stale == !ok && (reliable || 4 * |onDisk| % SECTOR == 0 ==> ok)
      ensures ok ==> BitsOf(onDisk, bitmap.bitCnt) == bitmap.View()
      ensures !ok ==> var whole := 4 * |onDisk| / SECTOR * (SECTOR / 4);
        whole < |onDisk| && onDisk == bitmap.bits[..][..whole] + old(onDisk)[whole..]
    {
      var bounce: bool := *;
      bounce := bounce || reliable;
      var image := bitmap.Write();
      var size := 4 * |image|;
      var written := Transferred(size, 0, size, bounce);
      WrittenWords(|image|, bounce);
      onDisk := image[..written / 4] + onDisk[written / 4..];
      ok := written == size;
      stale := !ok;
    }

    /** free_map_allocate: the first run of cnt sectors none of which is in use.
        None if there is no such run or the file could not be written, and then
        the bitmap in memory is as before. */
    method Allocate(cnt: nat) returns (r: Option<nat>)
      requires Valid()
      modifies `onDisk, `stale, bitmap.bits
      ensures Valid()
      ensures r.Some? ==> r.value + cnt <= bitmap.bitCnt && Run(r.value, cnt) !! old(Used())
      ensures Used() == old(Used()) + if r.Some? then Run(r.value, cnt) else {}
      ensures r.Some? ==> forall p: nat :: p + cnt <= bitmap.bitCnt && Run(p, cnt) !! old(Used()) ==> r.value <= p
      ensures r.Some? && fileOpen ==> !stale
      ensures r.None? && (reliable || !(fileOpen && stale)) ==>
        forall p: nat :: p + cnt <= bitmap.bitCnt ==> !(Run(p, cnt) !! old(Used()))
      ensures r.None? ==> Unchanged(old(onDisk), old(stale)) || (fileOpen && stale && !reliable)
    {
      ghost var before := bitmap.View();
      r := bitmap.ScanAndFlip(0, cnt, false);
      FirstRunOfSectors(before, cnt, r);
      if r.Some? {
        var sector := r.value;
        FillIsUnion(0, before, sector, cnt);
        if fileOpen {
          var ok := WriteFile();
          if !ok {
            bitmap.SetMultiple(sector, cnt, false);
            FillIsUnion(0, Filled(before, sector, cnt, true), sector, cnt);
            r := None;
          }
        }
      }
    }

    ghost predicate Unchanged(image: seq<Word>, wasStale: bool)
      reads this
    {
      onDisk == image && stale == wasStale
    }

    /** free_map_release: its assertion is that all the sectors are in use; a
        failed write goes unnoticed, and the file is then stale. */
    method Release(sector: nat, cnt: nat) returns (ghost wrote: bool)
      requires Valid() && fileOpen && Run(sector, cnt) <= Used() && sector + cnt <= bitmap.bitCnt
      modifies `onDisk, `stale, bitmap.bits
      ensures Valid() && Used() == old(Used()) - Run(sector, cnt)
      ensures stale == !wrote && (reliable ==> wrote)
      ensures wrote ==> BitsOf(onDisk, bitmap.bitCnt) == bitmap.View()
    {
      FillIsUnion(0, bitmap.View(), sector, cnt);
      bitmap.SetMultiple(sector, cnt, false);
      wrote := WriteFile();
    }

    /** free_map_create, once the inode of the file is there. */
    method Create() returns (ok: bool)
      requires Valid()
      modifies `fileOpen, `onDisk, `stale
      ensures Valid() && fileOpen && stale == !ok && (reliable ==> ok) && Used() == old(Used())
    {
      fileOpen := true;
      ok := WriteFile();
    }

    /** free_map_open reads the bitmap back: the sectors in use are the same
        unless the last write failed. */
    method Open()
      requires Valid()
      modifies `fileOpen, `stale, bitmap.bits
      ensures Valid() && fileOpen && !stale
      ensures old(fileOpen && !stale) ==> Used() == old(Used())
    {
      fileOpen := true;
      stale := false;
      bitmap.Read(onDisk);
    }
  }

  /** What inode_write_at writes of a file of n words: all, or whole sectors. */
  lemma WrittenWords(n: nat, bounce: bool)
    ensures var size := 4 * n; var written := Transferred(size, 0, size, bounce);
      && (written == size <==> bounce || size % SECTOR == 0)
      && written / 4 <= n && (written == size ==> written / 4 == n)
      && (written != size ==> written / 4 == size / SECTOR * (SECTOR / 4) < n)
  {
    var size := 4 * n;
    assert size == size / SECTOR * SECTOR + size % SECTOR;
  }

  lemma FirstRunOfSectors(bits: seq<bool>, cnt: nat, r: Option<nat>)
    requires IsFirstRun(bits, 0, cnt, false, r)
    ensures r.Some? ==> Run(r.value, cnt) !! OnesFrom(0, bits)
    ensures forall p: nat :: p + cnt <= |bits| && Run(p, cnt) !! OnesFrom(0, bits) ==> r.Some? && r.value <= p
  {
    if r.Some? {
      UniformMeans(0, bits, r.value, cnt);
    }
    forall p: nat | p + cnt <= |bits| && Run(p, cnt) !! OnesFrom(0, bits) ensures r.Some? && r.value <= p {
      UniformMeans(0, bits, p, cnt);
    }
  }
}
