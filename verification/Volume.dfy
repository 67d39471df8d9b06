/** The mounted volume: its layout on the disk, and the disk as a sequence of sectors. */
module Volume {
  import opened Bytes
  import opened FatCodec
  import opened Steps

  type Disk = seq<Sector>

  /** The part of the FATFS structure that mounting fixes. */
  datatype Geometry = Geometry(
    fsType: FatType, csize: nat, nFats: nat, nRootdir: nat, sectsFat: nat, maxClust: nat,
    fatbase: nat, dirbase: nat, database: nat, fsiSector: nat)
  {
    // The FAT copies lie one behind the other in [fatbase, CopiesEnd()).
    function CopiesEnd(): nat {
      fatbase + Times(nFats, sectsFat)
    }

    // What a formatted FAT volume of total sectors promises.
    ghost predicate Valid(total: nat) {
      && 1 <= csize <= 128
      && 1 <= nFats && 0 < fatbase
      && 2 <= maxClust && TypeFits()
      && 0 < sectsFat && (forall c :: 2 <= c < maxClust ==> Covers(fsType, sectsFat * SECTOR_SIZE, c))
      && nRootdir % 16 == 0 && nRootdir < 0x1_0000
      && fatbase + sectsFat <= CopiesEnd() && database == CopiesEnd() + nRootdir / 16 <= total
      && (fsType != Fat32 ==> dirbase == CopiesEnd())
      && (fsType == Fat32 ==> 0 < fsiSector < fatbase)
      && database + Times(maxClust - 2, csize) <= total < 0x1_0000_0000
    }

    // The FAT sub type follows from the number of clusters alone.
    predicate TypeFits() {
      match fsType
      case Fat12 => maxClust < 0xFF7
      case Fat16 => 0xFF7 <= maxClust < 0xFFF7
      case Fat32 => 0xFFF7 <= maxClust <= 0x0FFF_FFF7
    }

    // The sector of the first FAT that sector s mirrors; every other sector is its own home.
    function Home(s: nat): nat {
      if 0 < sectsFat && fatbase + sectsFat <= s < CopiesEnd() then Home(s - sectsFat) else s
    }

    // A sector the window may be moved to.
    predicate Addressable(s: nat, total: nat) {
      fatbase <= s < total && Home(s) == s
    }

    // clust2sect: the first sector of cluster c, or 0 if there is no such cluster.
    function ClusterSect(c: nat): nat {
      if 2 <= c < maxClust then Times(c - 2, csize) + database else 0
    }

    function SectOf(c: nat, i: nat): nat {
      ClusterSect(c) + i
    }
  }

  // The disk after sector data has been written to home sector w and reflected to the FAT copies.
  ghost function Flushed(g: Geometry, d: Disk, w: nat, data: Sector): (r: Disk)
    ensures |r| == |d|
  {
    seq(|d|, s requires 0 <= s < |d| => if g.Home(s) == w then data else d[s])
  }

  ghost predicate Mirrored(g: Geometry, d: Disk) {
    forall s {:trigger At(s)} :: At(s) && 0 <= s < |d| && g.Home(s) < |d| ==> d[s] == d[g.Home(s)]
  }

  // l is disk d as seen through a window holding data for sector w: if it is dirty, it lies over its sector.
  ghost predicate Overlay(g: Geometry, d: Disk, w: nat, dirty: bool, data: Sector, l: Disk) {
    && |l| == |d|
    && forall s {:trigger At(s)} :: At(s) && 0 <= s < |d| ==> l[s] == if dirty && g.Home(s) == w then data else d[s]
  }

  lemma OverlayClean(g: Geometry, d: Disk, w: nat, data: Sector, l: Disk)
    ensures Overlay(g, d, w, false, data, l) <==> l == d
  {
    if Overlay(g, d, w, false, data, l) {
      forall s | 0 <= s < |d| ensures l[s] == d[s] {
        assert At(s);
      }
    }
  }

  lemma OverlayDirty(g: Geometry, d: Disk, w: nat, data: Sector, l: Disk)
    ensures Overlay(g, d, w, true, data, l) <==> l == Flushed(g, d, w, data)
  {
    if Overlay(g, d, w, true, data, l) {
      forall s | 0 <= s < |d| ensures l[s] == Flushed(g, d, w, data)[s] {
        assert At(s);
      }
    }
  }

  // Storing into the window.
  lemma OverlayStore(g: Geometry, d: Disk, w: nat, dirty: bool, data: Sector, l: Disk, data': Sector)
    requires Overlay(g, d, w, dirty, data, l)
    ensures Overlay(g, d, w, true, data', Flushed(g, l, w, data'))
  {
  }

  // The bytes of the first FAT.
  ghost function FatBytes(g: Geometry, d: Disk): (r: seq<byte>)
    requires g.fatbase + g.sectsFat <= |d|
    ensures |r| == g.sectsFat * SECTOR_SIZE
  {
    seq(g.sectsFat * SECTOR_SIZE, i requires 0 <= i < g.sectsFat * SECTOR_SIZE =>
      d[g.fatbase + i / SECTOR_SIZE][i % SECTOR_SIZE])
  }

  // The link of cluster c; the two reserved entries read as 1, as get_cluster reports them.
  ghost function Link(g: Geometry, d: Disk, c: nat): nat
    requires g.Valid(|d|) && c < g.maxClust
  {
    if c < 2 then 1 else Decode(g.fsType, FatBytes(g, d), c)
  }

  // fat is the FAT on disk d, read as a table of links.
  ghost predicate IsFat(g: Geometry, d: Disk, fat: seq<nat>) {
    && g.Valid(|d|) && |fat| == g.maxClust
    && forall c {:trigger At(c)} :: At(c) && 0 <= c < g.maxClust ==> fat[c] == Link(g, d, c)
  }

  // The k-th copy of a sector of the first FAT has that sector as its home, and lies in the FAT area.
  lemma {:induction false} CopyHome(g: Geometry, w: nat, k: nat)
    requires 0 < g.sectsFat && g.fatbase <= w < g.fatbase + g.sectsFat && k < g.nFats
    ensures w + Times(k, g.sectsFat) < g.CopiesEnd() && g.Home(w + Times(k, g.sectsFat)) == w
  {
    TimesOrdered(k, g.nFats, g.sectsFat);
    if k == 0 {
    } else {
      CopyHome(g, w, k - 1);
    }
  }

  // Between two neighbouring copies of w no other sector has w as its home.
  lemma {:induction false} NoHomeBetween(g: Geometry, w: nat, k: nat, s: nat)
    requires 0 < g.sectsFat && g.fatbase <= w < g.fatbase + g.sectsFat
    requires w + Times(k, g.sectsFat) < s < w + Times(k + 1, g.sectsFat)
    ensures g.Home(s) != w
  {
    if g.fatbase + g.sectsFat <= s < g.CopiesEnd() {
      if k == 0 {
        assert g.Home(s - g.sectsFat) == s - g.sectsFat;
      } else {
        NoHomeBetween(g, w, k - 1, s - g.sectsFat);
      }
    }
  }

  lemma BehindLastCopy(g: Geometry, w: nat, s: nat)
    requires 1 <= g.nFats && g.fatbase <= w < g.fatbase + g.sectsFat
    requires w + Times(g.nFats - 1, g.sectsFat) < s
    ensures g.Home(s) != w
  {
    if s < g.CopiesEnd() {
      NoHomeBetween(g, w, g.nFats - 1, s);
    }
  }

  lemma {:induction false} HomeOfHome(g: Geometry, s: nat)
    ensures g.Home(g.Home(s)) == g.Home(s) <= s
    ensures 0 < g.sectsFat ==> g.Home(s) < g.fatbase + g.sectsFat || g.CopiesEnd() <= g.Home(s)
    ensures if s < g.fatbase || g.CopiesEnd() <= s then g.Home(s) == s else g.fatbase <= g.Home(s)
  {
    if 0 < g.sectsFat && g.fatbase + g.sectsFat <= s < g.CopiesEnd() {
      HomeOfHome(g, s - g.sectsFat);
    }
  }

  // The disk while the copies are being written: those up to sector upto are done.
  ghost function Reflected(g: Geometry, d: Disk, w: nat, data: Sector, upto: nat): (r: Disk)
    ensures |r| == |d|
  {
    seq(|d|, s requires 0 <= s < |d| => if g.Home(s) == w && s <= upto then data else d[s])
  }

  lemma ReflectedStart(g: Geometry, d: Disk, w: nat, data: Sector)
    requires w < |d| && d[w] == data
    ensures Reflected(g, d, w, data, w) == d
  {
    forall s | 0 <= s < |d| ensures Reflected(g, d, w, data, w)[s] == d[s] {
      HomeOfHome(g, s);
    }
  }

  lemma ReflectedStep(g: Geometry, d: Disk, w: nat, data: Sector, k: nat)
    requires g.fatbase <= w < g.fatbase + g.sectsFat && k + 1 < g.nFats && g.CopiesEnd() <= |d|
    ensures w + Times(k + 1, g.sectsFat) == w + Times(k, g.sectsFat) + g.sectsFat < |d|
    ensures Reflected(g, d, w, data, w + Times(k, g.sectsFat))[w + Times(k + 1, g.sectsFat) := data]
            == Reflected(g, d, w, data, w + Times(k + 1, g.sectsFat))
  {
    CopyHome(g, w, k + 1);
    forall s | w + Times(k, g.sectsFat) < s < w + Times(k + 1, g.sectsFat) ensures g.Home(s) != w {
      NoHomeBetween(g, w, k, s);
    }
  }

  lemma ReflectedEnd(g: Geometry, d: Disk, w: nat, data: Sector)
    requires g.fatbase <= w < g.fatbase + g.sectsFat && 1 <= g.nFats
    ensures Reflected(g, d, w, data, w + Times(g.nFats - 1, g.sectsFat)) == Flushed(g, d, w, data)
  {
    forall s | w + Times(g.nFats - 1, g.sectsFat) < s ensures g.Home(s) != w {
      BehindLastCopy(g, w, s);
    }
  }

  lemma FlushedAfterWrite(g: Geometry, d: Disk, w: nat, a: Sector)
    requires g.Addressable(w, |d|)
    ensures Flushed(g, d[w := a], w, a) == Flushed(g, d, w, a)
  {
  }

  // A home sector behind the first FAT lies behind every copy.
  lemma BehindFirstFat(g: Geometry, total: nat, w: nat)
    requires g.Valid(total) && g.Addressable(w, total)
    ensures g.fatbase + g.sectsFat <= w ==> g.CopiesEnd() <= w
  {
    HomeOfHome(g, w);
  }

  // Flushing keeps the copies equal to the first FAT.
  lemma FlushedMirrored(g: Geometry, d: Disk, w: nat, data: Sector)
    requires Mirrored(g, d)
    ensures Mirrored(g, Flushed(g, d, w, data))
  {
    var r := Flushed(g, d, w, data);
    forall s | 0 <= s < |r| && g.Home(s) < |r|
      ensures r[s] == r[g.Home(s)]
    {
      HomeOfHome(g, s);
      assert At(s);
    }
  }

  // Outside the FAT copies a flush changes the one sector only.
  lemma FlushedElsewhere(g: Geometry, d: Disk, w: nat, data: Sector)
    requires g.Addressable(w, |d|)
    ensures Flushed(g, d, w, data)[w] == data
    ensures g.CopiesEnd() <= w ==> Flushed(g, d, w, data) == d[w := data]
    ensures forall s :: 0 <= s < |d| && (s < g.fatbase || g.CopiesEnd() <= s) && s != w ==>
              Flushed(g, d, w, data)[s] == d[s]
  {
    if g.CopiesEnd() <= w {
      forall s | 0 <= s < |d| ensures Flushed(g, d, w, data)[s] == d[w := data][s] {
        HomeOfHome(g, s);
      }
    }
  }

  // Sectors outside the FAT copies mirror nothing and are mirrored nowhere.
  lemma MirroredOutside(g: Geometry, d: Disk, e: Disk)
    requires g.Valid(|d|) && |e| == |d| && Mirrored(g, d)
    requires forall s :: g.fatbase <= s < g.CopiesEnd() ==> s < |d| && d[s] == e[s]
    ensures Mirrored(g, e)
  {
    forall s | 0 <= s < |e| && g.Home(s) < |e| ensures e[s] == e[g.Home(s)] {
      HomeOfHome(g, s);
      assert At(s);
    }
  }

  // The first FAT's bytes after a flush.
  lemma FatBytesOfFlush(g: Geometry, d: Disk, w: nat, data: Sector)
    requires g.Valid(|d|)
    ensures forall i :: 0 <= i < g.sectsFat * SECTOR_SIZE ==>
              FatBytes(g, Flushed(g, d, w, data))[i]
              == if g.fatbase + i / SECTOR_SIZE == w then data[i % SECTOR_SIZE] else FatBytes(g, d)[i]
  {
    forall i | 0 <= i < g.sectsFat * SECTOR_SIZE
      ensures g.Home(g.fatbase + i / SECTOR_SIZE) == g.fatbase + i / SECTOR_SIZE
    {
    }
  }

  // Byte i of the FAT, as the window shows it.
  lemma FatByteAt(g: Geometry, d: Disk, i: nat)
    requires g.Valid(|d|) && i < g.sectsFat * SECTOR_SIZE
    ensures i / SECTOR_SIZE < g.sectsFat && g.Addressable(g.fatbase + i / SECTOR_SIZE, |d|)
    ensures FatBytes(g, d)[i] == d[g.fatbase + i / SECTOR_SIZE][i % SECTOR_SIZE]
  {
  }

  // Where get_cluster and put_cluster find the entry of cluster c in the window; the index is cut to a WORD first.
  function Index12(g: Geometry, ghost total: nat, c: nat): (bc: nat)
    requires g.Valid(total) && g.fsType == Fat12 && 2 <= c < g.maxClust
    ensures bc == c * 3 / 2 && bc + 1 < g.sectsFat * SECTOR_SIZE
  {
    assert Covers(g.fsType, g.sectsFat * SECTOR_SIZE, c);
    c % 0x1_0000 * 3 / 2
  }

  lemma Place16(g: Geometry, total: nat, c: nat)
    requires g.Valid(total) && g.fsType == Fat16 && 2 <= c < g.maxClust
    ensures c / (SECTOR_SIZE / 2) == c * 2 / SECTOR_SIZE && c % 0x1_0000 * 2 % SECTOR_SIZE == c * 2 % SECTOR_SIZE
    ensures c * 2 % SECTOR_SIZE + 2 <= SECTOR_SIZE && c * 2 + 2 <= g.sectsFat * SECTOR_SIZE
  {
    assert Covers(g.fsType, g.sectsFat * SECTOR_SIZE, c);
    InSector2(c);
  }

  lemma Place32(g: Geometry, total: nat, c: nat)
    requires g.Valid(total) && g.fsType == Fat32 && 2 <= c < g.maxClust
    ensures c / (SECTOR_SIZE / 4) == c * 4 / SECTOR_SIZE && c % 0x1_0000 * 4 % SECTOR_SIZE == c * 4 % SECTOR_SIZE
    ensures c * 4 % SECTOR_SIZE + 4 <= SECTOR_SIZE && c * 4 + 4 <= g.sectsFat * SECTOR_SIZE
  {
    assert Covers(g.fsType, g.sectsFat * SECTOR_SIZE, c);
    InSector4(c);
  }

  lemma InSector2(c: nat)
    ensures c / 256 == c * 2 / 512 && c % 0x1_0000 * 2 % 512 == c * 2 % 512 <= 510
  {
    Doubled(c);
    Doubled(c % 0x1_0000);
    SameTail(c, c / 0x1_0000, c % 0x1_0000);
  }

  // Cutting a number to a WORD keeps its low bits.
  lemma SameTail(c: nat, q: nat, w: nat)
    requires c == 0x1_0000 * q + w
    ensures c % 256 == w % 256 && c % 128 == w % 128
  {
    assert c == 256 * (256 * q + w / 256) + w % 256;
    assert c == 128 * (512 * q + w / 128) + w % 128;
  }

  lemma Doubled(c: nat)
    ensures c * 2 / 512 == c / 256 && c * 2 % 512 == c % 256 * 2 <= 510
  {
    assert c * 2 == 512 * (c / 256) + c % 256 * 2;
  }

  lemma InSector4(c: nat)
    ensures c / 128 == c * 4 / 512 && c % 0x1_0000 * 4 % 512 == c * 4 % 512 <= 508
  {
    Quadrupled(c);
    Quadrupled(c % 0x1_0000);
    SameTail(c, c / 0x1_0000, c % 0x1_0000);
  }

  lemma Quadrupled(c: nat)
    ensures c * 4 / 512 == c / 128 && c * 4 % 512 == c % 128 * 4 <= 508
  {
    assert c * 4 == 512 * (c / 128) + c % 128 * 4;
  }

  lemma WordInFat(g: Geometry, d: Disk, i: nat)
    requires g.Valid(|d|) && i + 2 <= g.sectsFat * SECTOR_SIZE && i % SECTOR_SIZE + 2 <= SECTOR_SIZE
    ensures g.Addressable(g.fatbase + i / SECTOR_SIZE, |d|)
    ensures i / SECTOR_SIZE < g.sectsFat
    ensures LdWord(FatBytes(g, d), i) == LdWord(d[g.fatbase + i / SECTOR_SIZE], i % SECTOR_SIZE)
  {
    FatByteAt(g, d, i);
    FatByteAt(g, d, i + 1);
  }

  lemma DwordInFat(g: Geometry, d: Disk, i: nat)
    requires g.Valid(|d|) && i + 4 <= g.sectsFat * SECTOR_SIZE && i % SECTOR_SIZE + 4 <= SECTOR_SIZE
    ensures g.Addressable(g.fatbase + i / SECTOR_SIZE, |d|)
    ensures i / SECTOR_SIZE < g.sectsFat
    ensures LdDword(FatBytes(g, d), i) == LdDword(d[g.fatbase + i / SECTOR_SIZE], i % SECTOR_SIZE)
  {
    WordInFat(g, d, i);
    WordInFat(g, d, i + 2);
  }

  // Changing bytes of one FAT sector, and of its copies, changes those bytes of the table.
  lemma FatBytesPatched(g: Geometry, d: Disk, i: nat, data: seq<byte>)
    requires g.Valid(|d|) && i + |data| <= g.sectsFat * SECTOR_SIZE && i % SECTOR_SIZE + |data| <= SECTOR_SIZE
    requires 0 < |data|
    ensures var w := g.fatbase + i / SECTOR_SIZE;
            w < |d| && FatBytes(g, Flushed(g, d, w, Patch(d[w], i % SECTOR_SIZE, data))) == Patch(FatBytes(g, d), i,
              data)
  {
    hide IsFat, Mirrored;
    var w := g.fatbase + i / SECTOR_SIZE;
    FatByteAt(g, d, i);
    var data' := Patch(d[w], i % SECTOR_SIZE, data);
    FatBytesOfFlush(g, d, w, data');
    var lhs, rhs := FatBytes(g, Flushed(g, d, w, data')), Patch(FatBytes(g, d), i, data);
    forall j | 0 <= j < |lhs| ensures lhs[j] == rhs[j] {
      if j / SECTOR_SIZE == i / SECTOR_SIZE {
        assert j % SECTOR_SIZE - i % SECTOR_SIZE == j - i;
      }
    }
  }

  lemma FatEntry(g: Geometry, d: Disk, fat: seq<nat>, c: nat)
    requires IsFat(g, d, fat) && 2 <= c < g.maxClust
    ensures Covers(g.fsType, g.sectsFat * SECTOR_SIZE, c)
    ensures fat[c] == Decode(g.fsType, FatBytes(g, d), c)
  {
    assert At(c);
  }

  lemma ReservedLinks(g: Geometry, d: Disk, fat: seq<nat>)
    requires IsFat(g, d, fat)
    ensures 2 <= |fat| && fat[0] == 1 && fat[1] == 1
  {
    assert At(0) && At(1);
  }

  // A table whose bytes are the codec's result is the table with that one link changed.
  lemma FatAfterEncode(g: Geometry, d: Disk, e: Disk, fat: seq<nat>, c: nat, v: nat)
    requires IsFat(g, d, fat) && |e| == |d| && 2 <= c < g.maxClust
    requires Covers(g.fsType, g.sectsFat * SECTOR_SIZE, c)
    requires FatBytes(g, e) == Encode(g.fsType, FatBytes(g, d), c, v)
    ensures IsFat(g, e, fat[c := Cut(g.fsType, v)])
  {
    DecodeAfterEncode(g.fsType, FatBytes(g, d), c, v);
    forall k | 2 <= k < g.maxClust && k != c ensures fat[k] == Link(g, e, k) {
      DecodeOtherAfterEncode(g.fsType, FatBytes(g, d), c, v, k);
      assert At(k);
    }
    assert At(0) && At(1);
  }

  lemma FatAfterEncode12(g: Geometry, d: Disk, mid: Disk, e: Disk, fat: seq<nat>, c: nat, v: nat, bc: nat)
    requires IsFat(g, d, fat) && g.fsType == Fat12 && 2 <= c < g.maxClust && |mid| == |e| == |d|
    requires bc == c * 3 / 2 && bc + 1 < g.sectsFat * SECTOR_SIZE
    requires FatBytes(g, mid) == Patch(FatBytes(g, d), bc, [Update12(false, c % 2 == 1, FatBytes(g, d)[bc], v)])
    requires FatBytes(g, e) == Patch(FatBytes(g, mid), bc
             + 1, [Update12(true, c % 2 == 1, FatBytes(g, mid)[bc + 1], v)])
    ensures IsFat(g, e, fat[c := Cut(g.fsType, v)])
  {
    FatEntry(g, d, fat, c);
    Encode12InTwoSteps(FatBytes(g, d), c, v);
    FatAfterEncode(g, d, e, fat, c, v);
  }

  ghost predicate SameOutsideFat(g: Geometry, d: Disk, e: Disk) {
    && |d| == |e|
    && forall s {:trigger At(s)} :: At(s) && 0 <= s < |d| && (s < g.fatbase || g.CopiesEnd() <= s) ==> d[s] == e[s]
  }

  // The FAT depends on no sector outside the FAT area.
  lemma FatOfSameSectors(g: Geometry, d: Disk, e: Disk, fat: seq<nat>)
    requires IsFat(g, d, fat) && |e| == |d|
    requires forall s :: g.fatbase <= s < g.CopiesEnd() ==> s < |d| && d[s] == e[s]
    ensures IsFat(g, e, fat)
  {
    assert FatBytes(g, d) == FatBytes(g, e);
    forall c | At(c) && 0 <= c < g.maxClust ensures fat[c] == Link(g, e, c) {
    }
  }

  // Every sector of every cluster lies in the data area, behind the FAT copies.
  lemma ClusterInData(g: Geometry, total: nat, c: nat, i: nat)
    requires g.Valid(total) && 2 <= c < g.maxClust && i < g.csize
    ensures g.database <= g.ClusterSect(c) + i < total && g.Addressable(g.ClusterSect(c) + i, total)
  {
    if c + 1 < g.maxClust {
      TimesOrdered(c - 2, g.maxClust - 2, g.csize);
    }
    HomeOfHome(g, g.ClusterSect(c) + i);
  }

  // No two clusters share a sector.
  lemma ClustersDisjoint(g: Geometry, c: nat, i: nat, d: nat, j: nat)
    requires 2 <= c < g.maxClust && 2 <= d < g.maxClust && i < g.csize && j < g.csize
    requires g.ClusterSect(c) + i == g.ClusterSect(d) + j
    ensures c == d && i == j
  {
    TimesUnique(c - 2, i, d - 2, j, g.csize);
  }

  // The disk after a direct transfer of whole sectors, past the window, from sector sect on.
  function PutSectors(d: Disk, sect: nat, data: seq<byte>): (r: Disk)
    requires |data| % SECTOR_SIZE == 0
    ensures |r| == |d|
  {
    seq(|d|, s requires 0 <= s < |d| =>
      if sect <= s && (s - sect + 1) * SECTOR_SIZE <= |data|
        then data[(s - sect) * SECTOR_SIZE..(s - sect + 1) * SECTOR_SIZE]
      else d[s])
  }

  // The bytes of n sectors from sector sect on.
  function GetSectors(d: Disk, sect: nat, n: nat): (r: seq<byte>)
    requires sect + n <= |d|
    ensures |r| == n * SECTOR_SIZE
  {
    seq(n * SECTOR_SIZE, i requires 0 <= i < n * SECTOR_SIZE => d[sect + i / SECTOR_SIZE][i % SECTOR_SIZE])
  }

  lemma PutOne(d: Disk, sect: nat, data: Sector)
    requires sect < |d|
    ensures PutSectors(d, sect, data) == d[sect := data]
  {
    forall s | 0 <= s < |d| ensures PutSectors(d, sect, data)[s] == d[sect := data][s] {
      assert SECTOR_SIZE * 0 == 0 && data[0..SECTOR_SIZE] == data;
    }
  }

  // Sector q of those read.
  lemma SectorRead(d: Disk, sect: nat, n: nat, q: nat)
    requires sect + n <= |d| && q < n
    ensures GetSectors(d, sect, n)[SECTOR_SIZE * q..SECTOR_SIZE * q + SECTOR_SIZE] == d[sect + q]
  {
    var r := GetSectors(d, sect, n)[SECTOR_SIZE * q..SECTOR_SIZE * q + SECTOR_SIZE];
    forall i | 0 <= i < SECTOR_SIZE ensures r[i] == d[sect + q][i] {
      assert (SECTOR_SIZE * q + i) / SECTOR_SIZE == q && (SECTOR_SIZE * q + i) % SECTOR_SIZE == i;
    }
  }

  // The same bytes are read exactly from the same sectors.
  lemma SameSectors(d: Disk, e: Disk, sect: nat, n: nat)
    requires sect + n <= |d| == |e|
    ensures GetSectors(d, sect, n) == GetSectors(e, sect, n) <==> forall s :: sect <= s < sect + n ==> d[s] == e[s]
  {
    if GetSectors(d, sect, n) == GetSectors(e, sect, n) {
      forall s | sect <= s < sect + n ensures d[s] == e[s] {
        SectorRead(d, sect, n, s - sect);
        SectorRead(e, sect, n, s - sect);
      }
    }
  }

  /** The FAT32 FSInfo sector: three signatures and the two allocation counters. */
  predicate IsFsInfo(s: Sector) {
    LdWord(s, 510) == 0xAA55 && LdDword(s, 0) == 0x41615252 && LdDword(s, 484) == 0x61417272
  }

  predicate HoldsFsInfo(s: Sector, freeCount: nat, nextFree: nat) {
    IsFsInfo(s) && LdDword(s, 488) == freeCount && LdDword(s, 492) == nextFree
  }

  // ST_DWORD into a sector, with what later loads see of it.
  method StoreDword(s: Sector, o: nat, v: nat) returns (r: Sector)
    requires o + 4 <= SECTOR_SIZE && v < 0x1_0000_0000
    ensures LdDword(r, o) == v
    ensures forall i :: 0 <= i < SECTOR_SIZE && !(o <= i < o + 4) ==> r[i] == s[i]
  {
    r := Patch(s, o, DwordBytes(v));
    assert LdDword(r, o) == v by {
      LoadAfterStore(s, o, v);
      CutNothing(v);
    }
  }

  // The FSInfo sector sync writes and the next mount loads.
  method MakeFsInfo(freeCount: nat, nextFree: nat) returns (s: Sector)
    requires freeCount < 0x1_0000_0000 && nextFree < 0x1_0000_0000
    ensures HoldsFsInfo(s, freeCount, nextFree)
  {
    s := seq(SECTOR_SIZE, _ => 0);
    s := s[510 := 0x55][511 := 0xAA];
    s := StoreDword(s, 0, 0x41615252);
    s := StoreDword(s, 484, 0x61417272);
    s := StoreDword(s, 488, freeCount);
    s := StoreDword(s, 492, nextFree);
  }

  // A direct transfer that leaves the dirty window's sector alone is seen under the window as it is.
  lemma OverlayPut(g: Geometry, d: Disk, w: nat, dirty: bool, data: Sector, l: Disk, sect: nat, buff: seq<byte>)
    requires Overlay(g, d, w, dirty, data, l) && |buff| % SECTOR_SIZE == 0 && g.CopiesEnd() <= sect
    requires dirty ==> !(sect <= w < sect + |buff| / SECTOR_SIZE)
    ensures Overlay(g, PutSectors(d, sect, buff), w, dirty, data, PutSectors(l, sect, buff))
  {
    forall s | At(s) && 0 <= s < |d|
      ensures PutSectors(l, sect, buff)[s] == if dirty && g.Home(s) == w then data else PutSectors(d, sect, buff)[s]
    {
      HomeOfHome(g, s);
    }
  }

  // A direct transfer over the dirty window's own sector: the window still lies over it.
  lemma OverlayHidden(g: Geometry, d: Disk, w: nat, data: Sector, l: Disk, sect: nat, buff: seq<byte>)
    requires Overlay(g, d, w, true, data, l) && |buff| % SECTOR_SIZE == 0 && g.CopiesEnd() <= sect
    requires sect <= w < |l|
    ensures Overlay(g, PutSectors(d, sect, buff), w, true, data, PutSectors(l, sect, buff)[w := l[w]])
  {
    assert At(w);
    forall s | At(s) && 0 <= s < |d|
      ensures PutSectors(l, sect, buff)[w := l[w]][s] == if g.Home(s) == w then data else PutSectors(d, sect, buff)[s]
    {
      HomeOfHome(g, s);
    }
  }

  // The mark put_cluster stores ends a chain on every FAT type, and a cluster number fits its entry.
  lemma EndMark(g: Geometry, total: nat)
    requires g.Valid(total)
    ensures g.maxClust <= Cut(g.fsType, 0x0FFF_FFFF)
  {
  }
}
