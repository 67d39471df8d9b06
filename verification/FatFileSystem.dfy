/** The FATFS object: the one-sector write-back window over the disk, and the FAT seen through it. */
module FatFileSystem {
  import opened Bytes
  import opened FatCodec
  import opened Volume
  import opened Steps
  import opened Chains

  datatype FResult = Ok | IntErr | NoFile | Denied | InvalidName | Exist

  const UNKNOWN: nat := 0xFFFF_FFFF
  const END_OF_CHAIN: nat := 0x0FFF_FFFF

  class FatFs {
    const g: Geometry
    const win: array<byte>
    var disk: Disk
    var winsect: nat
    var wflag: bool
    var fsiFlag: bool
    var lastClust: nat
    var freeClust: nat

    // The disk as the file system sees it: the dirty window laid over its sector and the copies of it.
    ghost var logical: Disk
    // The first FAT of that disk, as a table of links.
    ghost var fat: seq<nat>

    ghost predicate WindowValid()
      reads this, win
    {
      && g.Valid(|disk|) && win.Length == SECTOR_SIZE
      && (winsect != 0 ==> g.Addressable(winsect, |disk|))
      && (wflag ==> winsect != 0)
      && lastClust < 0x1_0000_0000 && freeClust < 0x1_0000_0000
      && Mirrored(g, disk)
      && Overlay(g, disk, winsect, wflag, win[..], logical)
    }

    ghost predicate Valid()
      reads this, win
    {
      WindowValid() && IsFat(g, logical, fat)
    }

    // A clean window holds what the disk holds. A direct transfer, or a window claimed for a sector
    // that is about to be filled, breaks this until the window is moved or written to.
    ghost predicate Coherent()
      reads this, win
    {
      !wflag && winsect != 0 ==> winsect < |disk| && win[..] == disk[winsect]
    }

    // What following and changing the FAT asks for: no more than a sector of the data area may be shown out of date.
    ghost predicate FatCoherent()
      reads this, win
    {
      !wflag && 0 < winsect < g.database ==> winsect < |disk| && win[..] == disk[winsect]
    }

    // The FAT is made of the given chains, the one given, unless it is empty, among them.
    ghost predicate Owns(chains: set<seq<nat>>, chain: seq<nat>)
      reads this`fat
    {
      Represents(fat, chains) && (chain != [] ==> chain in chains)
    }

    // No cluster is free.
    ghost predicate NoFree()
      reads this`fat
    {
      forall c :: 2 <= c < g.maxClust && c < |fat| ==> fat[c] != 0
    }

    // The allocation counters, which moving the window never touches.
    ghost function Counters(): (bool, nat, nat)
      reads this
    {
      (fsiFlag, lastClust, freeClust)
    }

    ghost predicate InFat(s: nat) {
      g.fatbase <= s < g.fatbase + g.sectsFat
    }

    // The end of auto_mount, once the boot sector has been parsed.
    constructor Mount(g: Geometry, disk: Disk, ghost fat: seq<nat>)
      requires g.Valid(|disk|) && Mirrored(g, disk) && IsFat(g, disk, fat)
      ensures Valid() && Coherent() && fresh(win) && this.g == g && this.disk == disk && logical == disk
              && this.fat == fat
      ensures winsect == 0 && !wflag && !fsiFlag
      ensures g.fsType == Fat32 && IsFsInfo(disk[g.fsiSector]) ==>
                freeClust == LdDword(disk[g.fsiSector], 488) && lastClust == LdDword(disk[g.fsiSector], 492)
      ensures !(g.fsType == Fat32 && IsFsInfo(disk[g.fsiSector])) ==> freeClust == UNKNOWN
    {
      this.g := g;
      this.disk, this.logical, this.fat := disk, disk, fat;
      win := new byte[SECTOR_SIZE](_ => 0);
      winsect, wflag, fsiFlag, freeClust, lastClust := 0, false, false, UNKNOWN, 0;
      if g.fsType == Fat32 && IsFsInfo(disk[g.fsiSector]) {
        lastClust := LdDword(disk[g.fsiSector], 492);
        freeClust := LdDword(disk[g.fsiSector], 488);
      }
      new;
      OverlayClean(g, disk, 0, win[..], disk);
    }

    // Reflects the window, just written to the first FAT, to the other FAT copies.
    method ReflectToCopies()
      requires g.Valid(|disk|) && win.Length == SECTOR_SIZE
      requires g.fatbase <= winsect < g.fatbase + g.sectsFat <= |disk| && disk[winsect] == win[..]
      modifies this`disk
      ensures disk == Flushed(g, old(disk), winsect, win[..])
    {
      var wsect := winsect;
      var nf := g.nFats;
      ReflectedStart(g, disk, winsect, win[..]);
      ghost var k := 0;
      while nf >= 2
        invariant 1 <= nf == g.nFats - k
        invariant wsect == winsect + Times(k, g.sectsFat)
        invariant disk == Reflected(g, old(disk), winsect, win[..], wsect)
      {
        ReflectedStep(g, old(disk), winsect, win[..], k);
        k := k + 1;
        wsect := wsect + g.sectsFat;
        disk := disk[wsect := win[..]];
        nf := nf - 1;
      }
      ReflectedEnd(g, old(disk), winsect, win[..]);
    }

    // The write-back half of move_window.
    method WriteBack()
      requires WindowValid() && wflag
      modifies this`disk, this`wflag
      ensures WindowValid() && !wflag && Coherent() && disk == logical
    {
      OverlayDirty(g, disk, winsect, win[..], logical);
      OverlayClean(g, logical, winsect, win[..], logical);
      FlushedElsewhere(g, disk, winsect, win[..]);
      FlushedMirrored(g, disk, winsect, win[..]);
      FlushedAfterWrite(g, disk, winsect, win[..]);
      BehindFirstFat(g, |disk|, winsect);
      disk := disk[winsect := win[..]];
      wflag := false;
      if winsect < g.fatbase + g.sectsFat {
        ReflectToCopies();
      }
    }

    method MoveWindow(sector: nat)
      requires WindowValid() && (sector == 0 || g.Addressable(sector, |disk|))
      modifies this`disk, this`winsect, this`wflag, win
      ensures WindowValid() && winsect == if sector == 0 then old(winsect) else sector
      ensures old(winsect) != sector ==> !wflag
      ensures old(winsect) == sector ==> wflag == old(wflag)
      ensures !old(wflag) ==> disk == old(disk) && !wflag
      ensures old(Coherent()) || (sector != 0 && old(winsect) != sector) ==> Coherent()
      ensures old(winsect) == sector || sector == 0 ==> win[..] == old(win[..])
      ensures old(FatCoherent()) ==> FatCoherent()
      ensures sector != 0 && Coherent() ==> win[..] == logical[sector]
    {
      var wsect := winsect;
      if wsect != sector {
        if wflag {
          WriteBack();
        }
        if sector != 0 {
          forall i | 0 <= i < SECTOR_SIZE {
            win[i] := disk[sector][i];
          }
          OverlayClean(g, disk, winsect, old(win[..]), logical);
          winsect := sector;
          assert win[..] == disk[sector];
          OverlayClean(g, disk, winsect, win[..], logical);
        }
      } else if wflag {
        OverlayDirty(g, disk, winsect, win[..], logical);
      } else {
        OverlayClean(g, disk, winsect, win[..], logical);
      }
    }

    // Copies data into the window from offset o on and marks the window dirty.
    method StoreWin(o: nat, data: seq<byte>)
      requires WindowValid() && winsect != 0 && o + |data| <= SECTOR_SIZE
      modifies this`wflag, this`logical, win
      ensures WindowValid() && wflag
      ensures win[..] == Patch(old(win[..]), o, data)
      ensures logical == Flushed(g, old(logical), winsect, win[..])
    {
      OverlayStore(g, disk, winsect, wflag, win[..], logical, Patch(win[..], o, data));
      forall i | 0 <= i < |data| {
        win[o + i] := data[i];
      }
      wflag := true;
      assert win[..] == Patch(old(win[..]), o, data);
      logical := Flushed(g, logical, winsect, win[..]);
    }

    // A window in step with the disk shows the sector it is on.
    lemma WindowShows()
      requires WindowValid() && Coherent() && winsect != 0
      ensures win[..] == logical[winsect]
    {
      if wflag {
        OverlayDirty(g, disk, winsect, win[..], logical);
      } else {
        OverlayClean(g, disk, winsect, win[..], logical);
      }
    }

    // Writes a dirty window back and hands it to a sector that is about to be filled, without reading it.
    method ClaimWindow(sect: nat)
      requires Valid() && g.Addressable(sect, |disk|)
      modifies this`disk, this`winsect, this`wflag, win
      ensures Valid() && winsect == sect && !wflag
    {
      MoveWindow(0);
      OverlayClean(g, disk, winsect, win[..], logical);
      winsect := sect;
      OverlayClean(g, disk, winsect, win[..], logical);
    }

    // Nothing is waiting to be written back; the window may be on its way from sector to sector.
    ghost predicate Clean()
      reads this, win
    {
      && g.Valid(|disk|) && win.Length == SECTOR_SIZE && !wflag && logical == disk && Mirrored(g, disk)
      && IsFat(g, logical, fat)
      && lastClust < 0x1_0000_0000 && freeClust < 0x1_0000_0000
    }

    // Marks the window dirty for the data sector it has been put on, and writes it back.
    method FlushHere()
      requires Clean() && g.Addressable(winsect, |disk|) && g.CopiesEnd() <= winsect
      modifies this`disk, this`wflag, this`logical, this`winsect, win
      ensures Clean() && winsect == old(winsect) && win[..] == old(win[..])
              && logical == old(logical)[winsect := win[..]]
    {
      wflag := true;
      ghost var before := logical;
      logical := Flushed(g, logical, winsect, win[..]);
      OverlayDirty(g, disk, winsect, win[..], logical);
      FlushedElsewhere(g, before, winsect, win[..]);
      FatOfSameSectors(g, before, logical, fat);
      MoveWindow(0);
      OverlayClean(g, disk, winsect, win[..], logical);
    }

    // Stores into the window where it shows a sector outside the FAT area: the FAT stays as it is.
    method StoreData(o: nat, data: seq<byte>)
      requires Valid() && g.CopiesEnd() <= winsect && o + |data| <= SECTOR_SIZE
      modifies this`wflag, this`logical, win
      ensures Valid() && Coherent() && wflag && win[..] == Patch(old(win[..]), o, data)
      ensures logical == old(logical)[winsect := win[..]]
    {
      ghost var before := logical;
      StoreWin(o, data);
      FlushedElsewhere(g, before, winsect, win[..]);
      FatOfSameSectors(g, before, logical, fat);
    }

    method Sync()
      requires Valid()
      modifies this, win
      ensures Valid() && !wflag && disk == logical && fat == old(fat) && !(g.fsType == Fat32 && fsiFlag)
      ensures freeClust == old(freeClust) && lastClust == old(lastClust)
      ensures if g.fsType == Fat32 && old(fsiFlag)
              then g.fsiSector < |disk| && HoldsFsInfo(disk[g.fsiSector], freeClust, lastClust)
                && logical == old(logical)[g.fsiSector := disk[g.fsiSector]]
              else logical == old(logical)
      ensures winsect == if g.fsType == Fat32 && old(fsiFlag) then 0 else old(winsect)
      ensures old(Coherent()) ==> Coherent()
    {
      MoveWindow(0);
      OverlayClean(g, disk, winsect, win[..], logical);
      if g.fsType == Fat32 && fsiFlag {
        WriteInfo();
      }
    }

    // The FSInfo sector made in the window and written to the disk.
    method WriteInfo()
      requires Valid() && !wflag && disk == logical && g.fsType == Fat32
      modifies this`disk, this`winsect, this`fsiFlag, this`logical, win
      ensures Valid() && disk == logical && !fsiFlag && winsect == 0
      ensures g.fsiSector < |disk| && HoldsFsInfo(disk[g.fsiSector], freeClust, lastClust)
      ensures logical == old(logical)[g.fsiSector := disk[g.fsiSector]]
    {
      winsect := 0;
      var info := MakeFsInfo(freeClust, lastClust);
      forall i | 0 <= i < SECTOR_SIZE {
        win[i] := info[i];
      }
      assert win[..] == info;
      disk := disk[g.fsiSector := win[..]];
      fsiFlag := false;
      MirroredOutside(g, logical, disk);
      FatOfSameSectors(g, logical, disk, fat);
      logical := disk;
      OverlayClean(g, disk, 0, win[..], disk);
    }

    /** disk_read of whole sectors straight into the caller's buffer. The window is not asked: the data are what the
        file system sees exactly if no dirty window is on one of the sectors with other contents. */
    method ReadDirect(sect: nat, n: nat) returns (data: seq<byte>)
      requires Valid() && g.CopiesEnd() <= sect && sect + n <= |disk|
      ensures data == GetSectors(disk, sect, n)
      ensures data == GetSectors(logical, sect, n) <==> (wflag && WindowOn(sect, n) ==> win[..] == disk[winsect])
    {
      data := GetSectors(disk, sect, n);
      forall s | sect <= s < sect + n
        ensures disk[s] == logical[s] <==> (wflag && s == winsect ==> win[..] == disk[winsect])
      {
        if wflag && s == winsect {
          OverlayShows();
        } else {
          SeenThrough(s);
        }
      }
      SameSectors(disk, logical, sect, n);
    }

    lemma OverlayShows()
      requires WindowValid() && wflag && g.CopiesEnd() <= winsect
      ensures winsect < |logical| && logical[winsect] == win[..]
    {
      HomeOfHome(g, winsect);
      assert At(winsect);
    }

    // Away from a dirty window's sector and the FAT area, the disk is what the file system sees.
    lemma SeenThrough(s: nat)
      requires WindowValid() && g.CopiesEnd() <= s < |disk| && (wflag ==> s != winsect)
      ensures disk[s] == logical[s]
    {
      HomeOfHome(g, s);
      assert At(s);
    }

    // Is the window on one of the n sectors from sect on?
    ghost predicate WindowOn(sect: nat, n: nat)
      reads this`winsect
    {
      sect <= winsect < sect + n
    }

    /** disk_write of whole sectors past the window. A clean window that shows one of them goes stale; a dirty one still
        hides what was written there. */
    method WriteDirect(sect: nat, data: seq<byte>)
      requires Valid() && g.database <= sect && |data| % SECTOR_SIZE == 0 && sect + |data| / SECTOR_SIZE <= |disk|
      modifies this`disk, this`logical
      ensures Valid() && (old(FatCoherent()) ==> FatCoherent())
      ensures logical == if wflag && WindowOn(sect, |data| / SECTOR_SIZE)
                         then PutSectors(old(logical), sect, data)[winsect := old(logical)[winsect]]
                         else PutSectors(old(logical), sect, data)
      ensures old(Coherent()) ==>
                (Coherent() <==> (WindowOn(sect, |data| / SECTOR_SIZE) ==> wflag || win[..] == logical[winsect]))
    {
      ghost var put := PutSectors(logical, sect, data);
      if wflag && WindowOn(sect, |data| / SECTOR_SIZE) {
        OverlayHidden(g, disk, winsect, win[..], logical, sect, data);
        put := put[winsect := logical[winsect]];
      } else {
        OverlayPut(g, disk, winsect, wflag, win[..], logical, sect, data);
      }
      FatOfSameSectors(g, logical, put, fat);
      MirroredOutside(g, disk, PutSectors(disk, sect, data));
      if !wflag {
        OverlayClean(g, disk, winsect, win[..], logical);
      }
      disk := PutSectors(disk, sect, data);
      logical := put;
    }

    /** What that leads to: a byte changed through the window, as a small f_write does, is missing from a direct read of
        its sector, as a large f_read does. */
    method StoreThenRead(sect: nat, o: nat, b: byte) returns (data: seq<byte>)
      requires Valid() && Coherent() && !wflag && g.database <= sect && g.Addressable(sect, |disk|) && o < SECTOR_SIZE
      requires logical[sect][o] != b
      modifies this`disk, this`winsect, this`wflag, this`logical, win
      ensures Valid() && logical == old(logical)[sect := Patch(old(logical[sect]), o, [b])]
      ensures data == old(logical[sect]) != logical[sect]
    {
      SeenThrough(sect);
      MoveWindow(sect);
      StoreData(o, [b]);
      data := ReadDirect(sect, 1);
      assert data == disk[sect];
    }

    /** And a sector written past a window that shows it, as a large f_write does, is shown out of date. */
    method ShowThenWrite(sect: nat, data: Sector)
      requires Valid() && Coherent() && !wflag && g.database <= sect && g.Addressable(sect, |disk|)
      modifies this`disk, this`winsect, this`wflag, this`logical, win
      ensures Valid() && logical == old(logical)[sect := data]
      ensures winsect == sect && win[..] == old(logical[sect])
    {
      MoveWindow(sect);
      WriteDirect(sect, data);
      PutOne(old(logical), sect, data);
    }

    // Changes bytes of the FAT, all in the sector the window is on.
    method StoreFat(i: nat, data: seq<byte>)
      requires WindowValid() && Coherent() && 0 < |data| && i + |data| <= g.sectsFat * SECTOR_SIZE
      requires winsect == g.fatbase + i / SECTOR_SIZE && i % SECTOR_SIZE + |data| <= SECTOR_SIZE
      modifies this`wflag, this`logical, win
      ensures WindowValid() && Coherent() && wflag
      ensures FatBytes(g, logical) == Patch(FatBytes(g, old(logical)), i, data)
      ensures SameOutsideFat(g, old(logical), logical)
    {
      FatByteAt(g, logical, i);
      FatBytesPatched(g, logical, i, data);
      ghost var before := logical;
      WindowShows();
      StoreWin(i % SECTOR_SIZE, data);
      FlushedElsewhere(g, before, winsect, win[..]);
    }

    // The byte of the FAT at i, brought into the window.
    method LoadFatByte(i: nat) returns (b: byte)
      requires WindowValid() && FatCoherent() && i < g.sectsFat * SECTOR_SIZE
      modifies this`disk, this`winsect, this`wflag, win
      ensures WindowValid() && Coherent() && b == FatBytes(g, logical)[i]
      ensures InFat(winsect) && winsect == g.fatbase + i / SECTOR_SIZE
    {
      FatByteAt(g, logical, i);
      MoveWindow(g.fatbase + i / SECTOR_SIZE);
      b := win[i % SECTOR_SIZE];
    }

    method LoadFatWord(sect: nat, o: nat, ghost i: nat) returns (w: nat)
      requires WindowValid() && FatCoherent() && i + 2 <= g.sectsFat * SECTOR_SIZE
      requires sect == g.fatbase + i / SECTOR_SIZE && o == i % SECTOR_SIZE && o + 2 <= SECTOR_SIZE
      modifies this`disk, this`winsect, this`wflag, win
      ensures WindowValid() && Coherent() && w == LdWord(FatBytes(g, logical), i)
      ensures InFat(winsect) && winsect == sect
    {
      WordInFat(g, logical, i);
      MoveWindow(sect);
      w := LdWord(win[..], o);
    }

    method LoadFatDword(sect: nat, o: nat, ghost i: nat) returns (w: nat)
      requires WindowValid() && FatCoherent() && i + 4 <= g.sectsFat * SECTOR_SIZE
      requires sect == g.fatbase + i / SECTOR_SIZE && o == i % SECTOR_SIZE && o + 4 <= SECTOR_SIZE
      modifies this`disk, this`winsect, this`wflag, win
      ensures WindowValid() && Coherent() && w == LdDword(FatBytes(g, logical), i)
      ensures InFat(winsect) && winsect == sect
    {
      DwordInFat(g, logical, i);
      MoveWindow(sect);
      w := LdDword(win[..], o);
    }

    // The FS_FAT12 arm of get_cluster.
    method GetFat12(clst: nat) returns (r: nat)
      requires Valid() && FatCoherent() && g.fsType == Fat12 && 2 <= clst < g.maxClust
      modifies this`disk, this`winsect, this`wflag, win
      ensures Valid() && Coherent() && r == fat[clst] && InFat(winsect)
    {
      FatEntry(g, logical, fat, clst);
      var bc := Index12(g, |disk|, clst);
      var lo := LoadFatByte(bc);
      bc := bc + 1;
      var hi := LoadFatByte(bc);
      r := Entry12(clst % 2 == 1, lo, hi);
    }

    // The FS_FAT16 arm of get_cluster.
    method GetFat16(clst: nat) returns (r: nat)
      requires Valid() && FatCoherent() && g.fsType == Fat16 && 2 <= clst < g.maxClust
      modifies this`disk, this`winsect, this`wflag, win
      ensures Valid() && Coherent() && r == fat[clst] && InFat(winsect)
    {
      FatEntry(g, logical, fat, clst);
      Place16(g, |disk|, clst);
      var w := LoadFatWord(g.fatbase + clst / (SECTOR_SIZE / 2), clst % 0x1_0000 * 2 % SECTOR_SIZE, clst * 2);
      r := w;
    }

    // The FS_FAT32 arm of get_cluster.
    method GetFat32(clst: nat) returns (r: nat)
      requires Valid() && FatCoherent() && g.fsType == Fat32 && 2 <= clst < g.maxClust
      modifies this`disk, this`winsect, this`wflag, win
      ensures Valid() && Coherent() && r == fat[clst] && InFat(winsect)
    {
      FatEntry(g, logical, fat, clst);
      Place32(g, |disk|, clst);
      var w := LoadFatDword(g.fatbase + clst / (SECTOR_SIZE / 4), clst % 0x1_0000 * 4 % SECTOR_SIZE, clst * 4);
      r := w % 0x1000_0000;
    }

    method GetCluster(clst: nat) returns (r: nat)
      requires Valid() && FatCoherent()
      modifies this`disk, this`winsect, this`wflag, win
      ensures Valid() && FatCoherent() && (old(Coherent()) ==> Coherent())
      ensures r == if 2 <= clst < g.maxClust then fat[clst] else 1
      ensures if 2 <= clst < g.maxClust then InFat(winsect) else winsect == old(winsect)
    {
      if clst < 2 || clst >= g.maxClust {
        return 1;
      }
      match g.fsType
      case Fat12 => r := GetFat12(clst);
      case Fat16 => r := GetFat16(clst);
      case Fat32 => r := GetFat32(clst);
    }

    // One of the two steps of the FS_FAT12 arm: read the byte, set its share of the entry, mark the window dirty.
    method UpdateFatByte(i: nat, high: bool, odd: bool, val: nat)
      requires WindowValid() && FatCoherent() && i < g.sectsFat * SECTOR_SIZE
      modifies this`disk, this`winsect, this`wflag, this`logical, win
      ensures WindowValid() && Coherent() && InFat(winsect)
      ensures FatBytes(g, logical) == Patch(FatBytes(g, old(logical)), i,
              [Update12(high, odd, FatBytes(g, old(logical))[i], val)])
      ensures SameOutsideFat(g, old(logical), logical)
    {
      var p := LoadFatByte(i);
      p := Update12(high, odd, p, val);
      StoreFat(i, [p]);
    }

    // The FS_FAT12 arm of put_cluster.
    method PutFat12(clst: nat, val: nat)
      requires Valid() && FatCoherent() && g.fsType == Fat12 && 2 <= clst < g.maxClust
      modifies this`disk, this`winsect, this`wflag, this`logical, this`fat, win
      ensures Valid() && Coherent() && fat == old(fat)[clst := Cut(g.fsType, val)]
      ensures SameOutsideFat(g, old(logical), logical) && InFat(winsect)
    {
      FatEntry(g, logical, fat, clst);
      var bc := Index12(g, |disk|, clst);
      var odd := clst % 2 == 1;
      UpdateFatByte(bc, false, odd, val);
      ghost var mid := logical;
      UpdateFatByte(bc + 1, true, odd, val);
      FatAfterEncode12(g, old(logical), mid, logical, fat, clst, val, bc);
      fat := fat[clst := Cut(g.fsType, val)];
    }

    // The FS_FAT16 arm of put_cluster.
    method PutFat16(clst: nat, val: nat)
      requires Valid() && FatCoherent() && g.fsType == Fat16 && 2 <= clst < g.maxClust
      modifies this`disk, this`winsect, this`wflag, this`logical, this`fat, win
      ensures Valid() && Coherent() && fat == old(fat)[clst := Cut(g.fsType, val)]
      ensures SameOutsideFat(g, old(logical), logical) && InFat(winsect)
    {
      FatEntry(g, logical, fat, clst);
      Place16(g, |disk|, clst);
      WordInFat(g, logical, clst * 2);
      MoveWindow(g.fatbase + clst / (SECTOR_SIZE / 2));
      StoreFat(clst * 2, WordBytes(val));
      FatAfterEncode(g, old(logical), logical, fat, clst, val);
      fat := fat[clst := Cut(g.fsType, val)];
    }

    // The FS_FAT32 arm of put_cluster.
    method PutFat32(clst: nat, val: nat)
      requires Valid() && FatCoherent() && g.fsType == Fat32 && 2 <= clst < g.maxClust
      modifies this`disk, this`winsect, this`wflag, this`logical, this`fat, win
      ensures Valid() && Coherent() && fat == old(fat)[clst := Cut(g.fsType, val)]
      ensures SameOutsideFat(g, old(logical), logical) && InFat(winsect)
    {
      FatEntry(g, logical, fat, clst);
      Place32(g, |disk|, clst);
      DwordInFat(g, logical, clst * 4);
      MoveWindow(g.fatbase + clst / (SECTOR_SIZE / 4));
      StoreFat(clst * 4, DwordBytes(val));
      FatAfterEncode(g, old(logical), logical, fat, clst, val);
      fat := fat[clst := Cut(g.fsType, val)];
    }

    method PutCluster(clst: nat, val: nat) returns (res: FResult)
      requires Valid() && FatCoherent()
      modifies this`disk, this`winsect, this`wflag, this`logical, this`fat, win
      ensures Valid() && FatCoherent() && (old(Coherent()) ==> Coherent())
      ensures res == if 2 <= clst < g.maxClust then Ok else IntErr
      ensures fat == if res == Ok then old(fat)[clst := Cut(g.fsType, val)] else old(fat)
      ensures SameOutsideFat(g, old(logical), logical)
      ensures if res == Ok then InFat(winsect) else logical == old(logical) && winsect == old(winsect)
    {
      if clst < 2 || clst >= g.maxClust {
        return IntErr;
      }
      match g.fsType {
        case Fat12 => PutFat12(clst, val);
        case Fat16 => PutFat16(clst, val);
        case Fat32 => PutFat32(clst, val);
      }
      res := Ok;
    }

    // A known free count is the number of free entries.
    ghost predicate CountExact()
      reads this
    {
      freeClust != UNKNOWN ==> freeClust == Zeros(fat)
    }

    // One more or one fewer free cluster, in the 32 bits of free_clust, where the top value means unknown.
    method CountFreed(n: int)
      requires n == 1 || n == -1
      modifies this`freeClust, this`fsiFlag
      ensures old(freeClust) == UNKNOWN ==> freeClust == UNKNOWN && fsiFlag == old(fsiFlag)
      ensures old(freeClust) != UNKNOWN ==> freeClust == (old(freeClust) + n) % 0x1_0000_0000 && fsiFlag
    {
      if freeClust != UNKNOWN {
        freeClust := (freeClust + n) % 0x1_0000_0000;
        fsiFlag := true;
      }
    }

    // One turn of the loop of remove_chain: frees cluster c if it links on.
    method FreeLink(c: nat) returns (nxt: nat)
      requires Valid() && FatCoherent() && 2 <= c < g.maxClust
      modifies this, win
      ensures Valid() && FatCoherent() && (old(Coherent()) ==> Coherent()) && lastClust == old(lastClust)
      ensures nxt == old(fat)[c] && fat == if nxt < 2 then old(fat) else old(fat)[c := 0]
      ensures nxt >= 2 ==> Zeros(fat) == Zeros(old(fat)) + 1
      ensures SameOutsideFat(g, old(logical), logical) && (old(CountExact()) ==> CountExact())
    {
      ReservedLinks(g, logical, fat);
      nxt := GetCluster(c);
      if nxt >= 2 {
        ZerosUpdate(fat, c, 0);
        var _ := PutCluster(c, 0);
        CountFreed(1);
      }
    }

    /** remove_chain: frees the clusters from clst on. */
    method RemoveChain(clst: nat) returns (res: FResult)
      requires Valid() && FatCoherent()
      modifies this, win
      ensures Valid() && FatCoherent() && (old(Coherent()) ==> Coherent()) && lastClust == old(lastClust)
      ensures fat == if 2 <= clst then FreeFrom(old(fat), clst) else old(fat)
      ensures res == if 2 <= clst < g.maxClust && !FreeFails(old(fat), clst) then Ok else IntErr
      ensures SameOutsideFat(g, old(logical), logical)
      ensures old(CountExact()) ==> CountExact()
    {
      if clst < 2 || clst >= g.maxClust {
        return IntErr;
      }
      res := Ok;
      var c: nat := clst;
      while c < g.maxClust
        invariant Valid() && FatCoherent() && (old(Coherent()) ==> Coherent()) && lastClust == old(lastClust)
                  && res == Ok
        invariant SameOutsideFat(g, old(logical), logical)
        invariant 2 <= c && FreeFrom(fat, c) == FreeFrom(old(fat), clst)
        invariant FreeFails(fat, c) == FreeFails(old(fat), clst)
        invariant old(CountExact()) ==> CountExact()
        decreases g.maxClust - Zeros(fat)
      {
        var nxt := FreeLink(c);
        if nxt == 0 {
          break;
        }
        if nxt == 1 {
          res := IntErr;
          break;
        }
        c := nxt;
      }
    }

    // The search of create_chain: the first free cluster behind scl, going round the table once.
    method FindFree(scl: nat) returns (ncl: nat)
      requires Valid() && FatCoherent() && 1 <= scl < g.maxClust
      modifies this`disk, this`winsect, this`wflag, win
      ensures Valid() && FatCoherent() && (old(Coherent()) ==> Coherent())
              && (winsect == old(winsect) || InFat(winsect))
      ensures ncl == 0 ==> forall c :: 2 <= c < g.maxClust ==> fat[c] != 0
      ensures ncl == 1 ==> exists c :: 2 <= c < g.maxClust && fat[c] == 1
      ensures ncl >= 2 ==> ncl < g.maxClust && fat[ncl] == 0
      ensures ncl >= 2 ==> forall c :: 2 <= c < g.maxClust && Before(scl, c, ncl) ==> fat[c] != 0
    {
      ncl := scl;
      ghost var wrapped := false;
      while true
        invariant Valid() && FatCoherent() && (old(Coherent()) ==> Coherent())
                  && (winsect == old(winsect) || InFat(winsect))
        invariant if wrapped then 2 <= ncl < scl else scl <= ncl < g.maxClust
        invariant forall c :: scl < c < (if wrapped then g.maxClust else ncl + 1) ==> fat[c] != 0
        invariant wrapped ==> forall c :: 2 <= c <= ncl ==> fat[c] != 0
        decreases !wrapped, g.maxClust - ncl
      {
        ncl := ncl + 1;
        if ncl >= g.maxClust {
          ncl := 2;
          wrapped := true;
          if ncl > scl {
            return 0;
          }
        }
        var cs := GetCluster(ncl);
        if cs == 0 {
          break;
        }
        if cs == 1 {
          return 1;
        }
        if ncl == scl {
          return 0;
        }
      }
    }

    // Going round the table from just behind scl, is cluster c visited before cluster d?
    static predicate Before(scl: nat, c: nat, d: nat) {
      if scl < d then scl < c < d else scl < c || c < d
    }

    // Where the search starts: at the last allocation for a new chain, at the cluster itself when stretching.
    function StartPoint(clst: nat): nat
      reads this`lastClust
    {
      if clst != 0 then clst
      else if lastClust == 0 || lastClust >= g.maxClust then 1
      else lastClust
    }

    method CreateChain(clst: nat) returns (ncl: nat)
      requires Valid() && FatCoherent()
      modifies this, win
      ensures Valid() && FatCoherent() && (old(Coherent()) ==> Coherent())
      ensures var cs := if 2 <= clst < g.maxClust then old(fat)[clst] else 1;
              if clst != 0 && cs < 2 then ncl == 1 && Kept()
              else if clst != 0 && cs < g.maxClust then ncl == cs && Kept()
              else if ncl == 0 then Kept() && forall c :: 2 <= c < g.maxClust ==> old(fat)[c] != 0
              else if ncl == 1 then Kept() && exists c :: 2 <= c < g.maxClust && old(fat)[c] == 1
              else Allocated(old(fat), clst, ncl, old(StartPoint(clst)))
      ensures SameOutsideFat(g, old(logical), logical)
      ensures ncl >= 2 ==> InFat(winsect)
      ensures winsect == old(winsect) || InFat(winsect)
      ensures old(CountExact()) ==> CountExact()
    {
      var scl := StartPoint(clst);
      if clst != 0 {
        var cs := GetCluster(clst);
        if cs < 2 {
          return 1;
        }
        if cs < g.maxClust {
          return cs;
        }
      }
      ncl := FindFree(scl);
      if ncl < 2 {
        return;
      }
      Allocate(clst, ncl);
    }

    // The last part of create_chain: mark the free cluster in use and link it.
    method Allocate(clst: nat, ncl: nat)
      requires Valid() && FatCoherent() && 2 <= ncl < g.maxClust && fat[ncl] == 0
      requires clst == 0 || (2 <= clst < g.maxClust && fat[clst] != 0)
      modifies this, win
      ensures Valid() && Coherent() && fat == Linked(old(fat), clst, ncl, Cut(g.fsType, END_OF_CHAIN))
      ensures SameOutsideFat(g, old(logical), logical) && lastClust == ncl && InFat(winsect)
      ensures old(CountExact()) ==> CountExact()
    {
      ZerosUpdate(fat, ncl, Cut(g.fsType, END_OF_CHAIN));
      var _ := PutCluster(ncl, END_OF_CHAIN);
      if clst != 0 {
        ZerosUpdate(fat, clst, ncl);
        var _ := PutCluster(clst, ncl);
      }
      lastClust := ncl;
      CountFreed(-1);
    }

    twostate predicate Kept()
      reads this
    {
      logical == old(logical) && fat == old(fat) && Counters() == old(Counters())
    }

    // The table before, and now, show the allocation of free cluster ncl: the first one behind scl,
    // marked as the end of its chain and linked to clst if there is one.
    ghost predicate Allocated(before: seq<nat>, clst: nat, ncl: nat, scl: nat)
      reads this
    {
      && 2 <= ncl < |before| && clst < |before| && before[ncl] == 0
      && (forall c :: 2 <= c < |before| && Before(scl, c, ncl) ==> before[c] != 0)
      && fat == Linked(before, clst, ncl, Cut(g.fsType, END_OF_CHAIN))
      && lastClust == ncl
    }
  }
}
