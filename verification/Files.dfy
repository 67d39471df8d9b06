/** The FIL object: a file as a byte array, read and written through a cursor on its cluster chain. */
module Files {
  import opened Bytes
  import opened FatCodec
  import opened Steps
  import opened Volume
  import opened Chains
  import opened FileData
  import opened FatFileSystem

  class File {
    const fs: FatFs
    // The bits of flag that are used here.
    var canRead: bool
    var canWrite: bool
    var failed: bool
    var written: bool
    var csect: nat
    var fptr: nat
    var fsize: nat
    var orgClust: nat
    var currClust: nat
    var dsect: nat
    // Where the directory entry is.
    var dirSect: nat
    var dirOfs: nat
    // The file's cluster chain, and the index in it of the current cluster.
    ghost var chain: seq<nat>
    ghost var ci: nat
    // The sectors of the chain, in order, and the bytes of the file in them.
    ghost var sects: seq<nat>
    ghost var bytes: seq<byte>

    ghost predicate OnChain()
      reads this`chain, this`orgClust, fs`fat
    {
      if chain == [] then orgClust == 0 else IsChain(fs.fat, chain) && chain[0] == orgClust
    }

    // The current cluster is cluster ci of the chain, and csect of its sectors lie before the cursor's.
    ghost predicate InCluster()
      reads this`ci, this`chain, this`currClust, this`csect
    {
      ci < |chain| && currClust == chain[ci] && csect <= fs.g.csize
    }

    // Number of sectors of the chain up to and including those counted by csect.
    ghost function SectorIndex(): nat
      reads this`ci, this`csect
    {
      Times(ci, fs.g.csize) + csect
    }

    /** The cursor invariant: csect is the rounded-up number of sectors used in the current cluster, and in
        the middle of a sector dsect is that sector. */
    ghost predicate Cursor()
      reads this`ci, this`chain, this`currClust, this`csect, this`fptr, this`dsect
    {
      if fptr == 0 then csect == 255
      else
        && InCluster() && 1 <= csect
        && SECTOR_SIZE * (SectorIndex() - 1) < fptr <= SECTOR_SIZE * SectorIndex()
        && (fptr % SECTOR_SIZE != 0 ==> dsect == fs.g.ClusterSect(currClust) + csect - 1)
    }

    ghost function Capacity(): nat
      reads this`sects
    {
      SECTOR_SIZE * |sects|
    }

    // How far the file reaches: the cursor may have gone past the size not yet updated.
    ghost function Extent(): nat
      reads this`fptr, this`fsize
    {
      if fptr > fsize then fptr else fsize
    }

    // The volume and the chain are in order; nothing is said of the cursor.
    ghost predicate Valid0()
      reads this, fs, fs.win
    {
      fs.Valid() && OnChain() && AreSects(fs.g, chain, sects) && Holds(fs.logical, sects, bytes)
      && fptr <= Capacity() && fsize <= Capacity() && fsize < 0x1_0000_0000
    }

    ghost predicate Valid()
      reads this, fs, fs.win
    {
      Valid0() && Cursor() && |bytes| == Extent()
    }

    // The sectors of the file are all different, and lie on the disk behind the FATs.
    ghost predicate SectsGood()
      reads this`sects, fs`logical
    {
      && AllDifferent(sects) && Covered(fs.logical, sects, Capacity())
      && forall q :: 0 <= q < |sects| ==> fs.g.CopiesEnd() <= fs.g.database <= sects[q]
    }

    lemma Good()
      requires Valid0()
      ensures SectsGood()
    {
      SectsAre(fs.g, chain, sects);
      ChainSectsGood(fs.g, fs.logical, fs.fat, chain);
    }

    // The cursor, the chain and the FAT are in order, whatever the window shows of the data area.
    ghost predicate Ready0()
      reads this, fs, fs.win
    {
      Valid0() && SectsGood() && fs.FatCoherent()
    }

    ghost predicate Ready()
      reads this, fs, fs.win
    {
      Valid() && SectsGood() && fs.FatCoherent()
    }

    // The window is in step with the disk, and not on a sector of the file with unwritten data in it: then a
    // direct transfer reads what the file system sees.
    ghost predicate InStep()
      reads this`sects, fs, fs.win
    {
      fs.Coherent() && (fs.wflag ==> fs.winsect !in sects)
    }

    /** The last part of f_open: the window shows the directory entry, o bytes into it. */
    constructor Open(fs: FatFs, o: nat, canRead: bool, canWrite: bool, ghost chain: seq<nat>)
      requires fs.Valid() && fs.Coherent() && fs.winsect != 0 && o + 32 <= SECTOR_SIZE
      requires var clst := StartCluster(fs.win[o..o + 32]);
               if chain == [] then clst == 0 else IsChain(fs.fat, chain) && chain[0] == clst
      requires FileSize(fs.win[o..o + 32]) <= SECTOR_SIZE * Times(|chain|, fs.g.csize)
      ensures Ready() && this.fs == fs && this.chain == chain && fptr == 0 && !failed && !written
      ensures fs.Coherent() && (!fs.wflag ==> InStep())
      ensures this.canRead == canRead && this.canWrite == canWrite && dirSect == fs.winsect && dirOfs == o
      ensures orgClust == StartCluster(fs.win[o..o + 32]) && fsize == FileSize(fs.win[o..o + 32])
    {
      this.fs, this.canRead, this.canWrite, this.chain := fs, canRead, canWrite, chain;
      failed, written := false, false;
      dirSect, dirOfs := fs.winsect, o;
      orgClust, fsize := StartCluster(fs.win[o..o + 32]), FileSize(fs.win[o..o + 32]);
      fptr, csect, dsect, currClust, ci := 0, 255, 0, 0, 0;
      sects := ChainSects(fs.g, chain);
      ChainSectsGood(fs.g, fs.logical, fs.fat, chain);
      bytes := FileBytes(fs.logical, ChainSects(fs.g, chain), FileSize(fs.win[o..o + 32]));
    }

    // At the start of a sector inside the current cluster.
    ghost predicate AtSector()
      reads this`ci, this`chain, this`currClust, this`csect, this`fptr
    {
      InCluster() && csect < fs.g.csize && fptr == SECTOR_SIZE * SectorIndex()
    }

    // Behind a full cluster of the chain there is another one, if the file goes on.
    lemma BoundaryNext()
      requires Valid() && 0 < fptr < Capacity() && fptr % SECTOR_SIZE == 0 && csect >= fs.g.csize
      ensures ci + 1 < |chain| && fptr == SECTOR_SIZE * Times(ci + 1, fs.g.csize)
    {
      assert fptr == SECTOR_SIZE * SectorIndex();
    }

    // The cluster-boundary step of f_read: follow the chain. The internal-error abort is never taken.
    method FollowCluster(ghost exact: bool)
      requires Ready() && fptr % SECTOR_SIZE == 0 && csect >= fs.g.csize && fptr < Capacity() && (exact ==> InStep())
      modifies this`currClust, this`csect, this`ci, fs`disk, fs`winsect, fs`wflag, fs.win
      ensures Ready0() && AtSector() && (exact ==> InStep())
    {
      var clst;
      if fptr == 0 {
        clst := orgClust;
        ci := 0;
      } else {
        BoundaryNext();
        assert LinkAt(fs.fat, chain, ci);
        clst := fs.GetCluster(currClust);
        ci := ci + 1;
      }
      assert LinkAt(fs.fat, chain, ci);
      if clst <= 1 {
        assert false;
      }
      currClust := clst;
      csect := 0;
    }

    // Whole sectors of the current cluster, read straight into the buffer.
    method ReadSectors(btr: nat, ghost exact: bool) returns (part: seq<byte>)
      requires Ready0() && AtSector() && SECTOR_SIZE <= btr && fptr + btr <= fsize == |bytes| && (exact ==> InStep())
      modifies this`csect, this`fptr
      ensures Ready() && 0 < |part| <= btr && fptr == old(fptr) + |part| && (exact ==> InStep())
      ensures |bytes| == fsize && (exact ==> part == bytes[old(fptr)..fptr])
    {
      var sect := fs.g.ClusterSect(currClust) + csect;
      var cc := btr / SECTOR_SIZE;
      if csect + cc > fs.g.csize {
        cc := fs.g.csize - csect;
      }
      RunToRead(sect, cc);
      part := fs.ReadDirect(sect, cc);
      PassSectors(cc);
    }

    // Moves the cursor behind cc more sectors of the current cluster.
    method PassSectors(cc: nat)
      requires Ready0() && AtSector() && 0 < cc && csect + cc <= fs.g.csize && fptr + SECTOR_SIZE * cc <= Capacity()
      requires |bytes| == if fptr + SECTOR_SIZE * cc > fsize then fptr + SECTOR_SIZE * cc else fsize
      modifies this`csect, this`fptr
      ensures Ready() && fptr == old(fptr) + SECTOR_SIZE * cc && csect == old(csect) + cc
              && fptr == SECTOR_SIZE * SectorIndex()
    {
      csect := csect + cc;
      fptr := fptr + SECTOR_SIZE * cc;
      assert Cursor() by {
        CursorAtEnd();
      }
    }

    // Behind whole sectors of the current cluster.
    lemma CursorAtEnd()
      requires InCluster() && 1 <= csect && fptr == SECTOR_SIZE * SectorIndex()
      ensures Cursor()
    {
    }

    // The run of cc sectors at the cursor: inside the data area and part of the file.
    lemma RunAtCursor(cc: nat)
      requires Valid0() && AtSector() && 0 < cc && csect + cc <= fs.g.csize
      ensures fs.g.CopiesEnd() <= fs.g.database <= fs.g.ClusterSect(currClust) + csect
      ensures fs.g.ClusterSect(currClust) + csect + cc <= |fs.disk| && |fs.disk| == |fs.logical|
      ensures Consecutive(sects, SectorIndex(), fs.g.ClusterSect(currClust) + csect, cc)
    {
      SectsAre(fs.g, chain, sects);
      ClusterRun(fs.g, chain, ci, csect, cc);
      assert LinkAt(fs.fat, chain, ci);
      ClusterInData(fs.g, |fs.disk|, currClust, csect);
      ClusterInData(fs.g, |fs.disk|, currClust, csect + cc - 1);
    }

    // A window on the run is on a sector of the file.
    lemma WindowInFile(sect: nat, cc: nat)
      requires Consecutive(sects, SectorIndex(), sect, cc) && fs.WindowOn(sect, cc)
      ensures fs.winsect in sects
    {
      InRun(sects, SectorIndex(), sect, cc, fs.winsect);
    }

    // The run, as a direct transfer into the buffer wants it.
    lemma RunToRead(sect: nat, cc: nat)
      requires Valid0() && AtSector() && 0 < cc && csect + cc <= fs.g.csize
               && sect == fs.g.ClusterSect(currClust) + csect
      requires fptr + SECTOR_SIZE * cc <= |bytes|
      ensures fs.g.CopiesEnd() <= sect && sect + cc <= |fs.disk| == |fs.logical|
      ensures bytes[fptr..fptr + SECTOR_SIZE * cc] == GetSectors(fs.logical, sect, cc)
      ensures fs.WindowOn(sect, cc) ==> fs.winsect in sects
    {
      RunAtCursor(cc);
      BytesOfRun(sect, cc);
      if fs.WindowOn(sect, cc) {
        WindowInFile(sect, cc);
      }
    }

    // The bytes of the run.
    lemma BytesOfRun(sect: nat, cc: nat)
      requires Holds(fs.logical, sects, bytes) && Consecutive(sects, SectorIndex(), sect, cc)
               && sect + cc <= |fs.logical|
      requires fptr == SECTOR_SIZE * SectorIndex() && fptr + SECTOR_SIZE * cc <= |bytes|
      ensures bytes[fptr..fptr + SECTOR_SIZE * cc] == GetSectors(fs.logical, sect, cc)
    {
      HoldsBytes(fs.logical, sects, bytes);
      RunOfSectors(fs.logical, sects, |bytes|, SectorIndex(), sect, cc);
    }

    // The last sector counted by csect is dsect, and the cursor is in it or at its start.
    ghost predicate InSector()
      reads this`ci, this`chain, this`currClust, this`csect, this`fptr, this`dsect
    {
      && InCluster() && 1 <= csect
      && SECTOR_SIZE * (SectorIndex() - 1) <= fptr < SECTOR_SIZE * SectorIndex()
      && dsect == fs.g.ClusterSect(currClust) + csect - 1
    }

    // In the middle of a sector that sector is the file's sector number fptr / SECTOR_SIZE.
    lemma SectorAtCursor()
      requires Valid0() && SectsGood() && InSector()
      ensures SectorIndex() - 1 < |sects| && sects[SectorIndex() - 1] == dsect
      ensures fs.g.Addressable(dsect, |fs.disk|) && fs.g.CopiesEnd() <= fs.g.database <= dsect
      ensures fptr % SECTOR_SIZE == fptr - SECTOR_SIZE * (SectorIndex() - 1)
    {
      assert LinkAt(fs.fat, chain, ci);
      ClusterInData(fs.g, |fs.disk|, currClust, csect - 1);
      SectsAre(fs.g, chain, sects);
      ChainSectAt(fs.g, chain, ci, csect - 1);
      DivMod512(fptr, SectorIndex() - 1, fptr - SECTOR_SIZE * (SectorIndex() - 1));
    }

    lemma CursorInSector(n: nat)
      requires InSector() && 0 < n <= SECTOR_SIZE - (fptr - SECTOR_SIZE * (SectorIndex() - 1))
      ensures InCluster() && 1 <= csect && 0 < fptr + n
      ensures SECTOR_SIZE * (SectorIndex() - 1) < fptr + n <= SECTOR_SIZE * SectorIndex()
    {
    }

    // The bytes of the current sector.
    lemma BytesOfSector(o: nat, n: nat)
      requires Valid0() && SectsGood() && InSector() && fptr + n <= |bytes| && o == fptr % SECTOR_SIZE
               && o + n <= SECTOR_SIZE
      ensures dsect in sects && dsect < |fs.logical| && bytes[fptr..fptr + n] == fs.logical[dsect][o..o + n]
    {
      SectorAtCursor();
      HoldsBytes(fs.logical, sects, bytes);
      PartOfSector(fs.logical, sects, |bytes|, SectorIndex() - 1, o, n);
    }

    // Brings the current sector into the window.
    method ShowSector(ghost exact: bool)
      requires Ready0() && InSector()
      modifies fs`disk, fs`winsect, fs`wflag, fs.win
      ensures Ready0() && InSector() && fs.winsect == dsect
      ensures old(InStep()) ==> InStep() && dsect < |fs.logical| && fs.win[..] == fs.logical[dsect]
      ensures exact && old(WindowReady()) ==> WindowReady()
    {
      SectorAtCursor();
      assert dsect in sects;
      fs.MoveWindow(dsect);
    }

    // Moves the cursor on inside the current sector.
    method Advance(n: nat)
      requires Ready0() && InSector() && 0 < n <= SECTOR_SIZE - fptr % SECTOR_SIZE
      requires |bytes| == if fptr + n > fsize then fptr + n else fsize
      modifies this`fptr
      ensures Ready() && fptr == old(fptr) + n && SECTOR_SIZE * (SectorIndex() - 1) < fptr
              && 1 <= SectorIndex() <= |sects|
      ensures sects[SectorIndex() - 1] == dsect
    {
      SectorAtCursor();
      CursorInSector(n);
      fptr := fptr + n;
    }

    // Part of the current sector, read through the window.
    method ReadPart(btr: nat, ghost exact: bool) returns (part: seq<byte>)
      requires Ready0() && InSector() && 0 < btr && fptr + btr <= fsize == |bytes| && (exact ==> InStep())
      modifies this`fptr, fs`disk, fs`winsect, fs`wflag, fs.win
      ensures Ready() && 0 < |part| <= btr && fptr == old(fptr) + |part| && (exact ==> InStep())
      ensures |bytes| == fsize && (exact ==> part == bytes[old(fptr)..fptr])
    {
      hide Represents;
      var o := fptr % SECTOR_SIZE;
      var rcnt := SECTOR_SIZE - o;
      if rcnt > btr {
        rcnt := btr;
      }
      BytesOfSector(o, rcnt);
      ShowSector(exact);
      part := fs.win[o..o + rcnt];
      Advance(rcnt);
    }

    lemma MiddleOfSector()
      requires Cursor() && fptr % SECTOR_SIZE != 0
      ensures InSector()
    {
    }

    lemma StartOfSector()
      requires Cursor() && fptr % SECTOR_SIZE == 0 && csect < fs.g.csize <= 128
      ensures AtSector()
    {
    }

    // On a sector boundary: move on to the next cluster if the current one is used up.
    method EnterSector(ghost exact: bool)
      requires Ready() && fptr % SECTOR_SIZE == 0 && fptr < Capacity() && (exact ==> InStep())
      modifies this`currClust, this`csect, this`ci, fs`disk, fs`winsect, fs`wflag, fs.win
      ensures Ready0() && AtSector() && (exact ==> InStep())
    {
      if csect >= fs.g.csize {
        FollowCluster(exact);
      } else {
        StartOfSector();
      }
    }

    lemma HasBytes()
      requires Ready() && fptr <= fsize
      ensures fs.g.Valid(|fs.disk|) && Cursor() && |bytes| == fsize <= Capacity()
    {
    }

    // One turn of the loop of f_read.
    method ReadStep(btr: nat, ghost exact: bool) returns (part: seq<byte>)
      requires Ready() && 0 < btr && fptr + btr <= fsize && (exact ==> InStep())
      modifies this`fptr, this`csect, this`currClust, this`dsect, this`ci, fs`disk, fs`winsect, fs`wflag, fs.win
      ensures Ready() && 0 < |part| <= btr && fptr == old(fptr) + |part| && (exact ==> InStep())
      ensures |bytes| == fsize && (exact ==> part == bytes[old(fptr)..fptr])
    {
      hide Represents;
      HasBytes();
      if fptr % SECTOR_SIZE == 0 {
        EnterSector(exact);
        if btr / SECTOR_SIZE != 0 {
          part := ReadSectors(btr, exact);
          return;
        }
        dsect := fs.g.ClusterSect(currClust) + csect;
        csect := csect + 1;
      } else {
        MiddleOfSector();
      }
      part := ReadPart(btr, exact);
    }

    // The loop of f_read.
    method ReadLoop(btr: nat, ghost exact: bool) returns (data: seq<byte>)
      requires Ready() && fptr + btr <= fsize && (exact ==> InStep())
      modifies this`fptr, this`csect, this`currClust, this`dsect, this`ci, fs`disk, fs`winsect, fs`wflag, fs.win
      ensures Ready() && fptr == old(fptr) + btr && |data| == btr && |bytes| == fsize && (exact ==> InStep())
      ensures exact ==> data == bytes[old(fptr)..fptr]
    {
      data := [];
      while |data| < btr
        invariant Ready() && |data| <= btr && fptr == old(fptr) + |data| && (exact ==> InStep())
        invariant |bytes| == fsize && (exact ==> data == bytes[old(fptr)..fptr])
      {
        ghost var at := fptr;
        var part := ReadStep(btr - |data|, exact);
        JoinSlices(bytes, old(fptr), at, fptr);
        data := data + part;
      }
    }

    static lemma JoinSlices(s: seq<byte>, i: nat, j: nat, k: nat)
      requires i <= j <= k <= |s|
      ensures s[i..k] == s[i..j] + s[j..k]
    {
    }

    /** f_read: the bytes from the cursor on, at most btr of them and none behind the end of the file. Whatever the
        window shows, the cursor stays right; with the window in step the data are the file's. */
    method Read(btr: nat) returns (res: FResult, data: seq<byte>)
      requires Ready() && fptr <= fsize
      modifies this`fptr, this`csect, this`currClust, this`dsect, this`ci, fs`disk, fs`winsect, fs`wflag, fs.win
      ensures Ready() && (old(InStep()) ==> InStep())
      ensures res == if failed then IntErr else if !canRead then Denied else Ok
      ensures fptr == if res != Ok then old(fptr) else if btr < fsize - old(fptr) then old(fptr) + btr else fsize
      ensures |data| == fptr - old(fptr) && fptr <= fsize == |bytes|
      ensures old(InStep()) ==> data == bytes[old(fptr)..fptr]
    {
      data := [];
      if failed {
        return IntErr, data;
      }
      if !canRead {
        return Denied, data;
      }
      var remain := fsize - fptr;
      data := ReadLoop(if btr > remain then remain else btr, InStep());
      res := Ok;
    }

    // The window is on no sector of the file at or behind the cursor, so that writing there past the
    // window neither leaves it stale nor is undone when it is written back.
    ghost predicate WindowBehind()
      reads this`sects, this`fptr, fs`winsect
    {
      forall q :: 0 <= q < |sects| && fptr <= SECTOR_SIZE * q ==> sects[q] != fs.winsect
    }

    // The window is in step with the disk and behind the cursor: then a write changes the file as it should.
    ghost predicate Ahead()
      reads this`sects, this`fptr, fs, fs.win
    {
      fs.Coherent() && WindowBehind()
    }

    // The chain may have grown; the other chains are as they were.
    twostate predicate SameOthers(chains: set<seq<nat>>, chains': set<seq<nat>>)
      reads this`chain, this`sects, fs`fat
    {
      fs.Owns(chains', chain) && chains' - {chain} == chains - {old(chain)} && old(chain) <= chain
        && old(sects) <= sects
    }

    // The cluster just allocated becomes the last one of the file's chain, which keeps the file's bytes.
    ghost method AppendCluster(clst: nat, fat: seq<nat>, d: Disk, chains: set<seq<nat>>)
      returns (chains': set<seq<nat>>)
      requires fs.Valid() && Represents(fat, chains) && 2 <= clst < |fat| == fs.g.maxClust && fat[clst] == 0
      requires if chain == [] then orgClust == clst else chain in chains && chain[0] == orgClust
      requires chain != [] ==> chain[|chain| - 1] < |fat|
      requires var last := if chain == [] then 0 else chain[|chain| - 1];
               fs.fat == Linked(fat, last, clst, Cut(fs.g.fsType, END_OF_CHAIN))
      requires AreSects(fs.g, chain, sects) && Holds(d, sects, bytes) && SameOutsideFat(fs.g, d, fs.logical)
      requires forall q :: 0 <= q < |sects| ==> fs.g.CopiesEnd() <= sects[q]
      modifies this`chain, this`sects
      ensures chain == old(chain) + [clst] && OnChain() && AreSects(fs.g, chain, sects)
      ensures Holds(fs.logical, sects, bytes) && SameOthers(chains, chains')
    {
      EndMark(fs.g, |fs.disk|);
      chains' := GrowChain(fat, chains, chain, clst, Cut(fs.g.fsType, END_OF_CHAIN));
      chain := chain + [clst];
      assert IsChain(fs.fat, chain);
      sects := ChainSects(fs.g, chain);
      KeptBytes(d, old(chain), old(sects));
    }

    // What the cluster-boundary step of f_write leaves if the disk is full: everything as it was.
    twostate predicate Full()
      reads this, fs, fs.win
    {
      && Valid() && fs.NoFree() && fs.logical == old(fs.logical) && chain == old(chain) && sects == old(sects)
      && csect == old(csect)
      && (fs.winsect == old(fs.winsect) || fs.InFat(fs.winsect))
    }

    // What it leaves otherwise: the cursor at the start of a cluster, and the window on the FAT.
    twostate predicate Entered()
      reads this, fs, fs.win
    {
      && AtSector() && fs.InFat(fs.winsect) && fs.Coherent()
      && SameOutsideFat(fs.g, old(fs.logical), fs.logical)
    }

    // The cluster-boundary step of f_write at the top of a file without clusters: a new chain.
    method StartChain(ghost chains: set<seq<nat>>) returns (full: bool, ghost chains': set<seq<nat>>)
      requires Ready() && fs.Owns(chains, chain) && chain == [] && fptr == 0
      modifies this`orgClust, this`currClust, this`csect, this`ci, this`chain, this`sects, fs, fs.win
      ensures Valid0() && fs.FatCoherent() && SameOthers(chains, chains') && (old(fs.Coherent()) ==> fs.Coherent())
      ensures if full then Full() else Entered()
    {
      NoReservedLink(fs.fat, chains);
      EndMark(fs.g, |fs.disk|);
      chains' := chains;
      var clst := fs.CreateChain(0);
      orgClust := clst;
      if clst == 0 {
        return true, chains;
      }
      if clst == 1 {
        assert false;
      }
      chains' := AppendCluster(clst, old(fs.fat), old(fs.logical), chains);
      ci := 0;
      currClust := clst;
      csect := 0;
      full := false;
    }

    // Where the current cluster's link leads.
    lemma LinkBehind()
      requires OnChain() && ci < |chain| && currClust == chain[ci]
      ensures 2 <= currClust < |fs.fat|
      ensures if ci + 1 < |chain| then 2 <= fs.fat[currClust] == chain[ci + 1] < |fs.fat|
                else |fs.fat| <= fs.fat[currClust]
    {
      assert LinkAt(fs.fat, chain, ci);
      assert ci + 1 < |chain| ==> LinkAt(fs.fat, chain, ci + 1);
    }

    // The cluster-boundary step of f_write behind a full cluster: follow the chain, or stretch it.
    method NextOrNew(ghost chains: set<seq<nat>>) returns (full: bool, ghost chains': set<seq<nat>>)
      requires Ready() && fs.Owns(chains, chain) && 0 < fptr && fptr % SECTOR_SIZE == 0 && csect >= fs.g.csize
      modifies this`currClust, this`csect, this`ci, this`chain, this`sects, fs, fs.win
      ensures Valid0() && fs.FatCoherent() && SameOthers(chains, chains') && (old(fs.Coherent()) ==> fs.Coherent())
      ensures if full then Full() else Entered()
    {
      NoReservedLink(fs.fat, chains);
      EndMark(fs.g, |fs.disk|);
      AtClusterEnd();
      LinkBehind();
      chains' := chains;
      var clst := fs.CreateChain(currClust);
      full := clst == 0;
      if clst == 1 {
        assert false;
      }
      if !full {
        if ci + 1 == |chain| {
          chains' := AppendCluster(clst, old(fs.fat), old(fs.logical), chains);
        }
        ci := ci + 1;
        assert chain[ci] == clst;
        currClust := clst;
        csect := 0;
      }
    }

    // A file that grows by a cluster keeps its bytes.
    lemma KeptBytes(d: Disk, s: seq<nat>, was: seq<nat>)
      requires fs.Valid() && OnChain() && AreSects(fs.g, chain, sects) && AreSects(fs.g, s, was) && Grown(s, chain)
      requires Holds(d, was, bytes) && SameOutsideFat(fs.g, d, fs.logical)
      requires forall q :: 0 <= q < |was| ==> fs.g.CopiesEnd() <= was[q]
      ensures was <= sects && Holds(fs.logical, sects, bytes)
    {
      SectsAre(fs.g, s, was);
      SectsAre(fs.g, chain, sects);
      HoldsBytes(d, was, bytes);
      ChainSectsGood(fs.g, fs.logical, fs.fat, chain);
      GrownBytes(fs.g, d, fs.logical, s, chain, |bytes|);
      HoldsBytes(fs.logical, sects, bytes);
    }

    // At the end of a cluster the cursor is where the next one starts.
    lemma AtClusterEnd()
      requires Cursor() && 0 < fptr && fptr % SECTOR_SIZE == 0 && csect >= fs.g.csize
      ensures csect == fs.g.csize && fptr == SECTOR_SIZE * Times(ci + 1, fs.g.csize)
    {
      assert fptr == SECTOR_SIZE * SectorIndex();
    }

    // The cluster-boundary step of f_write.
    method EnterCluster(ghost chains: set<seq<nat>>, ghost exact: bool)
      returns (full: bool, ghost chains': set<seq<nat>>)
      requires Ready() && fs.Owns(chains, chain) && fptr % SECTOR_SIZE == 0 && csect >= fs.g.csize
               && (exact ==> Ahead())
      modifies this`orgClust, this`currClust, this`csect, this`ci, this`chain, this`sects, fs, fs.win
      ensures Ready0() && SameOthers(chains, chains') && (exact ==> Ahead())
      ensures SameOutsideFat(fs.g, old(fs.logical), fs.logical)
      ensures if full then Cursor() && fs.NoFree() else AtSector()
    {
      chains' := chains;
      assert chain != [] ==> LinkAt(fs.fat, chain, 0);
      if fptr == 0 && orgClust != 0 {
        ci := 0;
        currClust := orgClust;
        csect := 0;
        full := false;
      } else {
        if fptr == 0 {
          full, chains' := StartChain(chains);
        } else {
          full, chains' := NextOrNew(chains);
        }
        Good();
      }
    }

    // Whole sectors of the current cluster, written straight from the buffer.
    method WriteSectors(data: seq<byte>, ghost exact: bool) returns (wcnt: nat)
      requires Ready0() && AtSector() && |bytes| == Extent() && SECTOR_SIZE <= |data| && (exact ==> Ahead())
      modifies this`csect, this`fptr, this`bytes, fs`disk, fs`logical
      ensures Ready() && 0 < wcnt <= |data| && fptr == old(fptr) + wcnt
      ensures exact ==> Ahead() && bytes == Overwrite(old(bytes), old(fptr), data[..wcnt])
      ensures OnlyChanged(fs.g, old(fs.logical), fs.logical, sects)
    {
      var sect := fs.g.ClusterSect(currClust) + csect;
      var cc := |data| / SECTOR_SIZE;
      if csect + cc > fs.g.csize {
        cc := fs.g.csize - csect;
      }
      wcnt := SECTOR_SIZE * cc;
      PutRun(sect, cc, data[..wcnt], exact);
      PassSectors(cc);
    }

    // How far the file reaches once n bytes have been written at the cursor.
    ghost function ExtentWith(n: nat): nat
      reads this`fptr, this`bytes
    {
      if |bytes| < fptr + n then fptr + n else |bytes|
    }

    // The direct transfer, seen as a change of the file.
    method PutRun(sect: nat, cc: nat, data: seq<byte>, ghost exact: bool)
      requires Ready0() && AtSector() && |bytes| == Extent() && 0 < cc && csect + cc <= fs.g.csize
               && (exact ==> Ahead())
      requires |data| == SECTOR_SIZE * cc && sect == fs.g.ClusterSect(currClust) + csect
      modifies this`bytes, fs`disk, fs`logical
      ensures Ready0() && fptr + |data| <= Capacity() && |bytes| == old(ExtentWith(|data|))
      ensures exact ==> fs.Coherent() && bytes == Overwrite(old(bytes), fptr, data)
      ensures OnlyChanged(fs.g, old(fs.logical), fs.logical, sects)
    {
      RunAtCursor(cc);
      HoldsBytes(fs.logical, sects, bytes);
      SectorsRewritten(fs.logical, sects, |bytes|, SectorIndex(), sect, data);
      PutOnlyChanges(fs.g, fs.logical, sects, SectorIndex(), sect, data);
      if exact {
        ClearOfRun(sect, cc);
      }
      ghost var n := ExtentWith(|data|);
      fs.WriteDirect(sect, data);
      bytes := FileBytes(fs.logical, sects, n);
      HoldsBytes(fs.logical, sects, bytes);
    }

    // A window behind the cursor is not on a run of sectors at the cursor.
    lemma ClearOfRun(sect: nat, cc: nat)
      requires AtSector() && WindowBehind() && Consecutive(sects, SectorIndex(), sect, cc)
      ensures !fs.WindowOn(sect, cc)
    {
      if fs.WindowOn(sect, cc) {
        InRun(sects, SectorIndex(), sect, cc, fs.winsect);
      }
    }

    // The window is in step, or it has just been claimed for the sector the file grows into.
    ghost predicate WindowReady()
      reads this`fptr, this`fsize, this`dsect, fs, fs.win
    {
      fs.Coherent() || (fs.winsect == dsect && !fs.wflag && fsize <= fptr && fptr % SECTOR_SIZE == 0)
    }

    // Part of the current sector, written through the window.
    method WritePart(data: seq<byte>, ghost exact: bool) returns (wcnt: nat)
      requires Ready0() && InSector() && |bytes| == Extent() && 0 < |data| && (exact ==> WindowReady())
      modifies this`fptr, this`bytes, fs`disk, fs`winsect, fs`wflag, fs`logical, fs.win
      ensures Ready() && Ahead() && 0 < wcnt <= |data| && fptr == old(fptr) + wcnt
      ensures exact ==> bytes == Overwrite(old(bytes), old(fptr), data[..wcnt])
      ensures OnlyChanged(fs.g, old(fs.logical), fs.logical, sects)
    {
      var o := fptr % SECTOR_SIZE;
      wcnt := SECTOR_SIZE - o;
      if wcnt > |data| {
        wcnt := |data|;
      }
      ShowSector(exact);
      SectorAtCursor();
      StorePart(o, data[..wcnt], exact);
      Advance(wcnt);
      LeftBehind();
    }

    // The copy into the window, seen as a change of the file.
    method StorePart(o: nat, part: seq<byte>, ghost exact: bool)
      requires Ready0() && InSector() && fs.winsect == dsect && (exact ==> WindowReady())
      requires |bytes| == Extent() && fptr == SECTOR_SIZE * (SectorIndex() - 1) + o && 0 < |part|
               && o + |part| <= SECTOR_SIZE
      modifies this`bytes, fs`wflag, fs`logical, fs.win
      ensures Ready0() && fs.Coherent() && |bytes| == old(ExtentWith(|part|))
      ensures exact ==> bytes == Overwrite(old(bytes), fptr, part)
      ensures OnlyChanged(fs.g, old(fs.logical), fs.logical, sects)
    {
      SectorAtCursor();
      HoldsBytes(fs.logical, sects, bytes);
      if exact {
        if fs.Coherent() {
          fs.WindowShows();
        }
        SectorRewritten(fs.logical, sects, |bytes|, SectorIndex() - 1, o, part, fs.win[..]);
      }
      ghost var n := ExtentWith(|part|);
      fs.StoreData(o, part);
      bytes := FileBytes(fs.logical, sects, n);
      HoldsBytes(fs.logical, sects, bytes);
    }

    // Once the cursor is past the start of the window's sector, the window is behind it.
    lemma LeftBehind()
      requires SectsGood() && 1 <= SectorIndex() <= |sects| && sects[SectorIndex() - 1] == fs.winsect
      requires SECTOR_SIZE * (SectorIndex() - 1) < fptr
      ensures WindowBehind()
    {
      forall q | 0 <= q < |sects| && fptr <= SECTOR_SIZE * q ensures sects[q] != fs.winsect {
        assert At(q) && At(SectorIndex() - 1);
      }
    }

    // Up to the transfer: the current cluster has a sector for the cursor, and the file is as it was.
    method BeginSector(ghost chains: set<seq<nat>>, ghost exact: bool)
      returns (full: bool, ghost chains': set<seq<nat>>)
      requires Ready() && fs.Owns(chains, chain) && fptr % SECTOR_SIZE == 0 && (exact ==> Ahead())
      modifies this`orgClust, this`currClust, this`csect, this`ci, this`chain, this`sects, fs, fs.win
      ensures Ready0() && SameOthers(chains, chains') && (exact ==> Ahead())
      ensures SameOutsideFat(fs.g, old(fs.logical), fs.logical)
      ensures if full then Cursor() && fs.NoFree() else AtSector()
    {
      full, chains' := false, chains;
      if csect >= fs.g.csize {
        full, chains' := EnterCluster(chains, exact);
      } else {
        StartOfSector();
      }
      if !full && fs.winsect == dsect {
        fs.MoveWindow(0);
      }
    }

    // The transfer itself: whole sectors directly, or part of a sector through the window.
    method Transfer(data: seq<byte>, ghost exact: bool) returns (wcnt: nat)
      requires Ready0() && AtSector() && |bytes| == Extent() && 0 < |data| && (exact ==> Ahead())
      modifies this`csect, this`fptr, this`dsect, this`bytes, fs`disk, fs`winsect, fs`wflag, fs`logical, fs.win
      ensures Ready() && 0 < wcnt <= |data| && fptr == old(fptr) + wcnt
      ensures exact ==> Ahead() && bytes == Overwrite(old(bytes), old(fptr), data[..wcnt])
      ensures OnlyChanged(fs.g, old(fs.logical), fs.logical, sects)
    {
      if |data| / SECTOR_SIZE != 0 {
        wcnt := WriteSectors(data, exact);
        return;
      }
      OpenSector();
      wcnt := WritePart(data, exact);
    }

    // The next sector of the cluster becomes the current one; a file that grows into it claims the window for it
    // unread.
    method OpenSector()
      requires Ready0() && AtSector() && |bytes| == Extent()
      modifies this`csect, this`dsect, fs`disk, fs`winsect, fs`wflag, fs.win
      ensures Ready0() && InSector() && (old(fs.Coherent()) ==> WindowReady())
    {
      var sect := fs.g.ClusterSect(currClust) + csect;
      SectorAhead(sect);
      if fptr >= fsize {
        fs.ClaimWindow(sect);
      }
      dsect := sect;
      csect := csect + 1;
    }

    lemma SectorAhead(sect: nat)
      requires Valid0() && AtSector() && sect == fs.g.ClusterSect(currClust) + csect
      ensures fs.g.database <= sect && fs.g.Addressable(sect, |fs.disk|)
      ensures fptr % SECTOR_SIZE == 0
    {
      assert LinkAt(fs.fat, chain, ci);
      ClusterInData(fs.g, |fs.disk|, currClust, csect);
    }

    // One turn of the loop of f_write; nothing is written only if the disk is full.
    method WriteStep(data: seq<byte>, ghost chains: set<seq<nat>>, ghost exact: bool)
      returns (wcnt: nat, ghost chains': set<seq<nat>>)
      requires Ready() && fs.Owns(chains, chain) && 0 < |data| && (exact ==> Ahead())
      modifies this`fptr, this`orgClust, this`currClust, this`csect, this`dsect, this`ci, this`chain, this`sects,
        this`bytes, fs, fs.win
      ensures Ready() && SameOthers(chains, chains') && fptr == old(fptr) + wcnt && wcnt <= |data|
              && (wcnt == 0 ==> fs.NoFree())
      ensures exact ==> Ahead() && bytes == Overwrite(old(bytes), old(fptr), data[..wcnt])
      ensures OnlyChanged(fs.g, old(fs.logical), fs.logical, sects)
    {
      chains' := chains;
      ghost var mid := fs.logical;
      if fptr % SECTOR_SIZE == 0 {
        var full;
        full, chains' := BeginSector(chains, exact);
        mid := fs.logical;
        if full {
          OverwriteNone(bytes, fptr, data);
          return 0, chains';
        }
        wcnt := Transfer(data, exact);
      } else {
        MiddleOfSector();
        wcnt := WritePart(data, exact);
      }
      OnlyChangedTrans(fs.g, old(fs.logical), mid, fs.logical, sects);
    }

    // What has been written so far: bw bytes of data at position at of a file that held start.
    ghost predicate Written(start: seq<byte>, at: nat, data: seq<byte>, bw: nat)
      reads this, fs, fs.win
    {
      Ahead() && at <= |start| && bw <= |data| && bytes == Overwrite(start, at, data[..bw])
    }

    // One turn of the loop of f_write, on the rest of the data.
    method WriteTurn(data: seq<byte>, bw: nat, ghost chains: set<seq<nat>>, ghost exact: bool, ghost start: seq<byte>,
        ghost at: nat)
      returns (wcnt: nat, ghost chains': set<seq<nat>>)
      requires Ready() && fs.Owns(chains, chain) && bw < |data| && fptr == at + bw
               && (exact ==> Written(start, at, data, bw))
      modifies this`fptr, this`orgClust, this`currClust, this`csect, this`dsect, this`ci, this`chain, this`sects,
        this`bytes, fs, fs.win
      ensures Ready() && SameOthers(chains, chains') && fptr == at + bw + wcnt && bw + wcnt <= |data|
              && (wcnt == 0 ==> fs.NoFree())
      ensures exact ==> Written(start, at, data, bw + wcnt)
      ensures OnlyChanged(fs.g, old(fs.logical), fs.logical, sects)
    {
      ghost var t := bytes;
      wcnt, chains' := WriteStep(data[bw..], chains, exact);
      if exact {
        OverwriteOn(start, at, data, bw, wcnt, t, bytes);
      }
    }

    // The loop of f_write.
    method WriteLoop(data: seq<byte>, ghost chains: set<seq<nat>>, ghost exact: bool)
      returns (bw: nat, ghost chains': set<seq<nat>>)
      requires Ready() && fs.Owns(chains, chain) && (exact ==> Ahead())
      modifies this`fptr, this`orgClust, this`currClust, this`csect, this`dsect, this`ci, this`chain, this`sects,
        this`bytes, fs, fs.win
      ensures Ready() && SameOthers(chains, chains') && fptr == old(fptr) + bw && bw <= |data|
              && (bw < |data| ==> fs.NoFree())
      ensures exact ==> Ahead() && bytes == Overwrite(old(bytes), old(fptr), data[..bw])
      ensures OnlyChanged(fs.g, old(fs.logical), fs.logical, sects)
    {
      hide Represents, File.Valid0, File.SectsGood;
      bw, chains' := 0, chains;
      OverwriteNone(bytes, fptr, data);
      var full := false;
      while bw < |data| && !full
        invariant Ready() && SameOthers(chains, chains') && fptr == old(fptr) + bw && bw <= |data|
                  && (full ==> fs.NoFree())
        invariant exact ==> Written(old(bytes), old(fptr), data, bw)
        invariant OnlyChanged(fs.g, old(fs.logical), fs.logical, sects)
        decreases !full, |data| - bw
      {
        var wcnt;
        wcnt, chains' := WriteTurn(data, bw, chains', exact, old(bytes), old(fptr));
        bw := bw + wcnt;
        full := wcnt == 0;
      }
    }

    /** f_write: the bytes are written over the file from the cursor on, which grows as needed. Less than all of them
        are written only if the disk is full or the file would reach 4 GB. Whatever the window shows, the cursor and the
        chain stay right; with the window in step and behind the cursor the bytes do. */
    method Write(buff: seq<byte>, ghost chains: set<seq<nat>>)
      returns (res: FResult, bw: nat, ghost chains': set<seq<nat>>)
      requires Ready() && fs.Owns(chains, chain) && fptr <= fsize && |buff| < 0x1_0000_0000
      modifies this, fs, fs.win
      ensures Ready() && SameOthers(chains, chains') && fptr <= fsize
      ensures failed == old(failed) && canRead == old(canRead) && canWrite == old(canWrite)
      ensures dirSect == old(dirSect) && dirOfs == old(dirOfs)
      ensures res == if failed then IntErr else if !canWrite then Denied else Ok
      ensures if res == Ok then written else bw == 0 && written == old(written) && fs.logical == old(fs.logical)
      ensures fptr == old(fptr) + bw && bw <= |buff|
      ensures res == Ok && bw < |buff| ==> fs.NoFree() || 0x1_0000_0000 <= old(fsize) + |buff|
      ensures fsize == if fptr > old(fsize) then fptr else old(fsize)
      ensures old(Ahead()) ==> Ahead() && bytes == Overwrite(old(bytes), old(fptr), buff[..bw])
      ensures OnlyChanged(fs.g, old(fs.logical), fs.logical, sects)
    {
      bw, chains' := 0, chains;
      OverwriteNone(bytes, fptr, buff);
      if failed {
        return IntErr, bw, chains';
      }
      if !canWrite {
        return Denied, bw, chains';
      }
      bw, chains' := WriteBytes(buff, chains, Ahead());
      res := Ok;
    }

    // The part of f_write behind the checks.
    method WriteBytes(buff: seq<byte>, ghost chains: set<seq<nat>>, ghost exact: bool)
      returns (bw: nat, ghost chains': set<seq<nat>>)
      requires Ready() && fs.Owns(chains, chain) && fptr <= fsize && |buff| < 0x1_0000_0000 && (exact ==> Ahead())
      modifies this`fptr, this`fsize, this`written, this`orgClust, this`currClust, this`csect, this`dsect, this`ci,
        this`chain,
        this`sects, this`bytes, fs, fs.win
      ensures Ready() && SameOthers(chains, chains') && fptr <= fsize && written
      ensures fptr == old(fptr) + bw && bw <= |buff|
      ensures bw < |buff| ==> fs.NoFree() || 0x1_0000_0000 <= old(fsize) + |buff|
      ensures fsize == if fptr > old(fsize) then fptr else old(fsize)
      ensures exact ==> Ahead() && bytes == Overwrite(old(bytes), old(fptr), buff[..bw])
      ensures OnlyChanged(fs.g, old(fs.logical), fs.logical, sects)
    {
      var btw := if (fsize + |buff|) % 0x1_0000_0000 < fsize then 0 else |buff|;
      bw, chains' := WriteLoop(buff[..btw], chains, exact);
      assert buff[..btw][..bw] == buff[..bw];
      NoteSize();
    }

    // The new size, and the flag that has f_sync write it.
    method NoteSize()
      requires Ready() && fptr < 0x1_0000_0000
      modifies this`fsize, this`written
      ensures Ready() && written && fptr <= fsize && fsize == if fptr > old(fsize) then fptr else old(fsize)
    {
      if fptr > fsize {
        fsize := fptr;
      }
      written := true;
    }

    // In bytes, cluster k of the chain starts here.
    ghost function ClusterStart(k: nat): nat {
      SECTOR_SIZE * Times(k, fs.g.csize)
    }

    // The test of f_lseek compares cluster indexes, and its mask rounds down to the start of the current cluster.
    lemma CurrentCluster()
      requires Cursor() && 0 < fptr
      ensures var bcs := fs.g.csize * SECTOR_SIZE;
              && ClusterStart(ci) < fptr <= ClusterStart(ci + 1)
              && bcs > 0 && (fptr - 1) / bcs == ci && (fptr - 1) / bcs * bcs == ClusterStart(ci)
    {
      TimesScaled(ci, fs.g.csize, SECTOR_SIZE);
      StepOf(fptr - 1, ci, SECTOR_SIZE * fs.g.csize);
    }

    // An offset lies in or behind the current cluster exactly if it passes the test of f_lseek.
    lemma NotBehind(ofs: nat)
      requires Cursor() && 0 < fptr && 0 < ofs && 0 < fs.g.csize
      ensures var bcs := fs.g.csize * SECTOR_SIZE;
              (ofs - 1) / bcs >= (fptr - 1) / bcs <==> ClusterStart(ci) < ofs
    {
      CurrentCluster();
      TimesScaled(ci, fs.g.csize, SECTOR_SIZE);
      StepReached(ofs - 1, ci, SECTOR_SIZE * fs.g.csize);
    }

    // Where a walk along the chain stands: at the start of cluster ci, with ofs bytes to go.
    ghost predicate Walking(clst: nat, ofs: nat, target: nat)
      reads this`ci, this`chain, this`currClust, this`fptr
    {
      && ci < |chain| && clst == currClust == chain[ci]
      && fptr == ClusterStart(ci) && fptr + ofs == target && 0 < ofs
    }

    // The window is where it was, or on the FAT and in step.
    twostate predicate WindowKept()
      reads fs, fs.win
    {
      && (old(fs.Coherent()) ==> fs.Coherent())
      && ((fs.winsect == old(fs.winsect) && (fs.wflag ==> old(fs.wflag))) || fs.InFat(fs.winsect))
    }

    // Following the chain from the current cluster to the one that holds the target.
    method Walk(clst0: nat, ofs0: nat, ghost target: nat) returns (clst: nat, ofs: nat)
      requires Ready0() && Walking(clst0, ofs0, target) && target <= Capacity()
      modifies this`fptr, this`currClust, this`ci, fs`disk, fs`winsect, fs`wflag, fs.win
      ensures Ready0() && WindowKept() && Walking(clst, ofs, target)
      ensures ofs <= fs.g.csize * SECTOR_SIZE
    {
      clst, ofs := clst0, ofs0;
      var bcs := fs.g.csize * SECTOR_SIZE;
      while ofs > bcs
        invariant Ready0() && WindowKept() && Walking(clst, ofs, target)
        decreases ofs
      {
        assert LinkAt(fs.fat, chain, ci);
        if ci + 1 < |chain| {
          assert LinkAt(fs.fat, chain, ci + 1);
        }
        clst := fs.GetCluster(clst);
        if clst <= 1 || clst >= fs.g.maxClust {
          assert false;
        }
        currClust := clst;
        fptr := fptr + bcs;
        ofs := ofs - bcs;
        ci := ci + 1;
      }
    }

    // The end of f_lseek: the sector counters for the offset inside the cluster.
    method Land(clst: nat, ofs: nat, ghost target: nat)
      requires Valid0() && Walking(clst, ofs, target) && ofs <= fs.g.csize * SECTOR_SIZE && target <= fsize == |bytes|
      modifies this`fptr, this`csect, this`dsect
      ensures Valid() && fptr == target
    {
      var nsect := 0;
      assert LinkAt(fs.fat, chain, ci);
      fptr := fptr + ofs;
      csect := ofs / SECTOR_SIZE;
      if ofs % SECTOR_SIZE != 0 {
        nsect := fs.g.ClusterSect(clst);
        if nsect == 0 {
          assert false;
        }
        nsect := nsect + csect;
        csect := csect + 1;
      }
      if nsect != 0 && nsect != dsect && fptr % SECTOR_SIZE != 0 {
        dsect := nsect;
      }
      InnerOffset(ofs);
    }

    lemma InnerOffset(ofs: nat)
      requires 0 < ofs && fptr == ClusterStart(ci) + ofs
      ensures fptr % SECTOR_SIZE == ofs % SECTOR_SIZE
      ensures ofs % SECTOR_SIZE != 0 ==> SECTOR_SIZE * (ofs / SECTOR_SIZE) < ofs < SECTOR_SIZE * (ofs / SECTOR_SIZE + 1)
      ensures ofs % SECTOR_SIZE == 0 ==> SECTOR_SIZE * (ofs / SECTOR_SIZE) == ofs
    {
      var t := Times(ci, fs.g.csize);
      assert fptr == SECTOR_SIZE * (t + ofs / SECTOR_SIZE) + ofs % SECTOR_SIZE;
      DivMod512(fptr, t + ofs / SECTOR_SIZE, ofs % SECTOR_SIZE);
    }

    // The choice of f_lseek: if the offset lies in the current cluster or behind it, the walk starts there.
    method Resume(ofs: nat) returns (ahead: bool, at: nat)
      requires Valid() && 0 < ofs
      ensures ahead <==> 0 < fptr && ClusterStart(ci) < ofs
      ensures ahead ==> at == ClusterStart(ci)
    {
      ahead, at := false, 0;
      if fptr > 0 {
        CurrentCluster();
        NotBehind(ofs);
        var bcs := fs.g.csize * SECTOR_SIZE;
        ahead := (ofs - 1) / bcs >= (fptr - 1) / bcs;
        at := (fptr - 1) / bcs * bcs;
      }
    }

    /** f_lseek as fs-usb has it: never behind the end of the file, and the chain is never stretched. A window on no
        sector of the file stays off it, so that a write may follow. */
    method Seek(target: nat) returns (res: FResult)
      requires Ready() && fptr <= fsize
      modifies this`fptr, this`csect, this`currClust, this`dsect, this`ci, fs`disk, fs`winsect, fs`wflag, fs.win
      ensures Ready() && fptr <= fsize
      ensures res == if failed then IntErr else Ok
      ensures fptr == if failed then old(fptr) else if target > fsize then fsize else target
      ensures old(InStep()) ==> InStep()
      ensures old(fs.Coherent()) && old(fs.winsect) !in sects ==> Ahead() && fs.winsect !in sects
    {
      hide Valid;
      HasBytes();
      if failed {
        return IntErr;
      }
      var ofs := if target > fsize then fsize else target;
      if ofs > 0 {
        var ahead, at := Resume(ofs);
        SeekTo(ofs, ahead, at);
      } else {
        Rewind();
      }
      StillClear(old(fs.winsect), fs.winsect);
      res := Ok;
    }

    // The cursor to the top of the file.
    method Rewind()
      requires Ready() && fptr <= fsize
      modifies this`fptr, this`csect
      ensures Ready() && fptr == 0
    {
      fptr, csect := 0, 255;
    }

    // The FAT is no part of the file.
    lemma StillClear(was: nat, now: nat)
      requires Ready() && (now == was || fs.InFat(now))
      ensures was !in sects ==> now !in sects && (now == fs.winsect ==> WindowBehind())
    {
    }

    // The choice of f_lseek put into effect: the walk starts at the current cluster, or at the first one.
    method StartWalk(target: nat, ahead: bool, at: nat) returns (clst: nat, ofs: nat)
      requires Ready() && 0 < target <= fsize == |bytes| && (ahead ==> 0 < fptr && at == ClusterStart(ci) < target)
      modifies this`fptr, this`csect, this`currClust, this`ci
      ensures Ready0() && clst != 0 && Walking(clst, ofs, target)
    {
      clst, ofs := currClust, target;
      assert LinkAt(fs.fat, chain, 0) && (ahead ==> LinkAt(fs.fat, chain, ci));
      if ahead {
        fptr := at;
        ofs := target - at;
      } else {
        fptr := 0;
        clst := orgClust;
        currClust := clst;
        ci := 0;
      }
      csect := 255;
    }

    // The walk of f_lseek from the chosen cluster.
    method SeekTo(target: nat, ahead: bool, at: nat)
      requires Ready() && 0 < target <= fsize == |bytes| && (ahead ==> 0 < fptr && at == ClusterStart(ci) < target)
      modifies this`fptr, this`csect, this`currClust, this`dsect, this`ci, fs`disk, fs`winsect, fs`wflag, fs.win
      ensures Ready() && WindowKept() && fptr == target
    {
      var clst, ofs := StartWalk(target, ahead, at);
      if clst != 0 {
        clst, ofs := Walk(clst, ofs, target);
        Land(clst, ofs, target);
      } else {
        assert false;
      }
    }

    // The directory entry lies in a sector of its own, not in the file.
    ghost predicate EntryApart()
      reads this`dirSect, this`dirOfs, this`sects, fs`disk
    {
      && fs.g.Addressable(dirSect, |fs.disk|) && fs.g.CopiesEnd() <= dirSect && dirSect !in sects
      && dirOfs + 32 <= SECTOR_SIZE
    }

    // The file's directory entry, on the disk as the file system sees it.
    ghost function Entry(): (e: seq<byte>)
      requires dirSect < |fs.logical| && dirOfs + 32 <= SECTOR_SIZE
      reads this`dirSect, this`dirOfs, fs`logical
      ensures |e| == 32
    {
      fs.logical[dirSect][dirOfs..dirOfs + 32]
    }

    // The entry is e now, and the rest of its sector as it was.
    twostate predicate EntryPut(e: seq<byte>)
      requires |e| == 32 && dirSect < |old(fs.logical)| && dirSect < |fs.logical| && dirOfs + 32 <= SECTOR_SIZE
      reads this`dirSect, this`dirOfs, fs`logical
    {
      Entry() == e && fs.logical[dirSect] == Patch(old(fs.logical)[dirSect], dirOfs, e)
    }

    /** f_sync: the entry gets the start cluster and the size, and everything goes to the disk. */
    method Sync(tim: nat) returns (res: FResult)
      requires Ready() && (fs.winsect == dirSect ==> fs.Coherent()) && EntryApart() && fptr <= fsize
      modifies this`written, fs, fs.win
      ensures res == Ok && Ready() && !written && (old(written || fs.Coherent()) ==> fs.Coherent())
      ensures |fs.logical| == old(|fs.logical|) == |fs.disk| && EntryApart()
      ensures if old(written) then fs.disk == fs.logical && EntryPut(Stamped(old(Entry()), orgClust, fsize, tim))
              else fs.logical == old(fs.logical) && fs.wflag == old(fs.wflag) && fs.winsect == old(fs.winsect)
      ensures forall s {:trigger At(s)} ::
              At(s) && 0 <= s < |fs.disk| && s != dirSect && !(fs.g.fsType == Fat32 && s == fs.g.fsiSector) ==>
                fs.logical[s] == old(fs.logical)[s]
      ensures fs.fat == old(fs.fat) && (old(written) ==> !fs.wflag && (fs.winsect == dirSect || fs.winsect == 0))
    {
      res := Ok;
      if written {
        WriteEntry(tim);
        FlushAll();
      }
    }

    // The entry, changed in the window.
    method WriteEntry(tim: nat)
      requires Ready() && (fs.winsect == dirSect ==> fs.Coherent()) && EntryApart()
      modifies this`written, fs`disk, fs`winsect, fs`wflag, fs`logical, fs.win
      ensures Ready() && fs.Coherent() && EntryApart() && !written && fs.winsect == dirSect
      ensures |fs.logical| == old(|fs.logical|) == |fs.disk| && EntryPut(Stamped(old(Entry()), orgClust, fsize, tim))
      ensures forall s :: 0 <= s < |fs.disk| && s != dirSect ==> fs.logical[s] == old(fs.logical)[s]
    {
      ghost var before := fs.logical;
      fs.MoveWindow(dirSect);
      var e := Stamped(fs.win[dirOfs..dirOfs + 32], orgClust, fsize, tim);
      written := false;
      fs.StoreData(dirOfs, e);
      KeptByEntry(before);
    }

    lemma KeptByEntry(before: Disk)
      requires EntryApart() && Holds(before, sects, bytes)
      requires dirSect < |before| == |fs.logical| && fs.logical == before[dirSect := fs.logical[dirSect]]
      ensures Holds(fs.logical, sects, bytes)
    {
      forall q | 0 <= q < |sects| ensures fs.logical[sects[q]] == before[sects[q]] {
        assert sects[q] in sects;
      }
      HoldsStill(before, fs.logical, sects, bytes);
    }

    // sync: besides what is waiting, it writes no more than the FSInfo sector, which is none of the file's.
    method FlushAll()
      requires Ready() && fs.Coherent() && EntryApart() && fs.winsect == dirSect
      modifies fs, fs.win
      ensures Ready() && fs.Coherent() && EntryApart() && fs.disk == fs.logical && !fs.wflag && fs.fat == old(fs.fat)
      ensures |fs.logical| == old(|fs.logical|) == |fs.disk| && (fs.winsect == dirSect || fs.winsect == 0)
      ensures forall s {:trigger At(s)} ::
                At(s) && 0 <= s < |fs.disk| && !(fs.g.fsType == Fat32 && s == fs.g.fsiSector) ==>
                  fs.logical[s] == old(fs.logical)[s]
      ensures fs.logical[dirSect] == old(fs.logical[dirSect])
    {
      ghost var before := fs.logical;
      fs.Sync();
      KeptByInfo(before);
    }

    lemma KeptByInfo(before: Disk)
      requires fs.g.Valid(|before|) && SectsGood() && Holds(before, sects, bytes) && |before| == |fs.logical|
      requires fs.logical == before
               || (fs.g.fsType == Fat32 && fs.g.fsiSector < |before|
               && fs.logical == before[fs.g.fsiSector := fs.logical[fs.g.fsiSector]])
      ensures Holds(fs.logical, sects, bytes)
    {
      HoldsStill(before, fs.logical, sects, bytes);
    }
  }

  /** The position alone determines the cursor: a seek from the current cluster, a seek from the head of the
      chain and plain reading all end in the same place. */
  lemma CursorDetermined(f: File, h: File)
    requires f.Valid() && h.Valid() && f.fs == h.fs && f.chain == h.chain && f.fptr == h.fptr
    ensures f.csect == h.csect
    ensures 0 < f.fptr ==> f.ci == h.ci && f.currClust == h.currClust
    ensures f.fptr % SECTOR_SIZE != 0 ==> f.dsect == h.dsect
  {
    if 0 < f.fptr {
      assert f.SectorIndex() == h.SectorIndex();
      TimesUnique(f.ci, f.csect - 1, h.ci, h.csect - 1, f.fs.g.csize);
    }
  }
}
