/** The DIR object: a cursor on a directory table, and the operations on directories. */
module Dirs {
  import opened Bytes
  import opened FatCodec
  import opened Steps
  import opened Volume
  import opened Chains
  import opened FileData
  import opened FatFileSystem
  import opened LongNames
  import opened ShortNames
  import opened Entries
  import opened NameMap
  import opened TableEdits
  import opened EntryEdits
  import opened DirData

  class Dir {
    const fs: FatFs
    var sclust: nat
    var index: nat
    var clust: nat
    var sect: nat
    // dj->dir, as an offset into the window.
    var ofs: nat
    // dj->fn: the short name and the name status.
    var fn: ShortName
    // dj->lfn: the working buffer, and whether the pointer is set.
    const lfn: array<Wchar>
    var useLfn: bool
    var lfnIdx: nat
    // The clusters, the sectors and the slots of the table.
    ghost var chain: seq<nat>
    ghost var sects: seq<nat>
    ghost var slots: seq<Slot>
    // The numbers of the current sector in the table, and of the current cluster in the chain.
    ghost var q: nat
    ghost var ci: nat

    // A static table lies in front of the data area; any other table is a cluster chain.
    ghost predicate OnTable()
      reads this`sclust, this`chain, this`sects, fs`fat
    {
      if sclust == 0 then
        && chain == [] && fs.g.fsType != Fat32 && |sects| == fs.g.nRootdir / SLOTS
        && forall k :: 0 <= k < |sects| ==> sects[k] == fs.g.dirbase + k
      else IsChain(fs.fat, chain) && chain[0] == sclust && AreSects(fs.g, chain, sects)
    }

    ghost predicate Valid()
      reads this`sclust, this`chain, this`sects, this`slots, fs, fs.win
    {
      && fs.Valid() && fs.Coherent() && PowerOfTwo(fs.g.csize)
      && OnTable() && TableSects(fs.g, |fs.disk|, sects) && HoldsSlots(fs.logical, sects, slots)
    }

    /** The cursor is on slot number index: in its sector, at its place in it, and in its cluster. */
    ghost predicate Here()
      reads this`sclust, this`index, this`clust, this`sect, this`ofs, this`chain, this`sects, this`q, this`ci
    {
      q < |sects| && sect == sects[q] && 32 * (index - SLOTS * q) == ofs < SECTOR_SIZE && index < 0x1_0000
        && OnCluster()
    }

    ghost predicate OnCluster()
      reads this`sclust, this`clust, this`chain, this`q, this`ci
    {
      sclust != 0 ==>
        ci < |chain| && clust == chain[ci]
        && Times(ci, fs.g.csize) <= q < Times(ci, fs.g.csize) + fs.g.csize
    }

    /** A directory object on the table of a chain, or on the static root directory. */
    constructor Open(fs: FatFs, lfn: array<Wchar>, sclust: nat, ghost chain: seq<nat>, ghost slots: seq<Slot>)
      requires fs.Valid() && fs.Coherent() && PowerOfTwo(fs.g.csize) && lfn.Length == MAX_LFN + 1
      requires if sclust == 0 then chain == [] && fs.g.fsType != Fat32 && 0 < fs.g.nRootdir
               else IsChain(fs.fat, chain) && chain[0] == sclust && |ChainSects(fs.g, chain)| <= 4096
      requires HoldsSlots(fs.logical, SectsOf(fs.g, chain), slots)
      ensures Valid() && this.fs == fs && this.lfn == lfn && this.sclust == sclust && this.chain == chain
              && this.slots == slots
      ensures useLfn
    {
      this.fs, this.lfn, this.sclust, this.chain, this.slots := fs, lfn, sclust, chain, slots;
      fn, useLfn, lfnIdx := ShortName([], NameStatus(false, false, false, false, false)), true, NO_LFN;
      index, clust, sect, ofs, q, ci := 0, 0, 0, 0, 0, 0;
      sects := SectsOf(fs.g, chain);
      if chain == [] {
        RootTable(fs.g, fs.logical);
      } else {
        ChainTable(fs.g, fs.logical, fs.fat, chain);
      }
    }

    // The cursor is put on slot r of the table's sector p.
    lemma PutHere(p: nat, r: nat)
      requires p < |sects| <= 4096 && r < SLOTS && index == SLOTS * p + r && sect == sects[p] && ofs == 32 * r && q == p
      requires OnCluster()
      ensures Here()
    {
    }

    // The static arm of dir_seek.
    method SeekStatic(idx: nat) returns (res: FResult)
      requires Valid() && sclust == 0 && index == idx < 0x1_0000
      modifies this`sect, this`ofs, this`q
      ensures res == if idx < |slots| then Ok else IntErr
      ensures res == Ok ==> Here()
    {
      if idx >= fs.g.nRootdir {
        return IntErr;
      }
      sect := fs.g.dirbase + idx / SLOTS;
      ofs := idx % SLOTS * 32;
      q := idx / SLOTS;
      PutHere(q, idx % SLOTS);
      res := Ok;
    }

    // The dynamic arm of dir_seek.
    method SeekChain(idx: nat) returns (res: FResult)
      requires Valid() && sclust != 0 && index == idx < 0x1_0000
      modifies this`sect, this`ofs, this`clust, this`q, this`ci, fs`disk, fs`winsect, fs`wflag, fs.win
      ensures Valid() && res == if idx < |slots| then Ok else IntErr
      ensures res == Ok ==> Here()
    {
      var ic := SLOTS * fs.g.csize;
      var i: nat, clst: nat := idx, sclust;
      ghost var c := 0;
      LinkHere(c);
      hide Valid;
      while i >= ic
        invariant Valid() && c < |chain| && clst == chain[c] && i + SLOTS * Times(c, fs.g.csize) == idx
        decreases i
      {
        LinkHere(c);
        assert Times(c + 1, fs.g.csize) == Times(c, fs.g.csize) + fs.g.csize;
        clst := fs.GetCluster(clst);
        if clst < 2 || clst >= fs.g.maxClust {
          return IntErr;
        }
        i := i - ic;
        c := c + 1;
      }
      PutIn(clst, i, c);
      res := Ok;
    }

    // The cursor to slot i of a cluster.
    method PutIn(clst: nat, i: nat, ghost c: nat)
      requires Valid() && sclust != 0 && c < |chain| && clst == chain[c] && i < SLOTS * fs.g.csize
      requires index == i + SLOTS * Times(c, fs.g.csize) < 0x1_0000
      modifies this`sect, this`ofs, this`clust, this`q, this`ci
      ensures Valid() && Here() && index < |slots|
    {
      ClusterAt(c, i / SLOTS);
      clust := clst;
      sect := fs.g.ClusterSect(clst) + i / SLOTS;
      ofs := i % SLOTS * 32;
      ci, q := c, Times(c, fs.g.csize) + i / SLOTS;
      PutHere(q, i % SLOTS);
    }

    // What get_cluster finds at cluster number c of the chain.
    lemma LinkHere(c: nat)
      requires Valid() && sclust != 0 && c < |chain|
      ensures chain[0] == sclust && 2 <= chain[c] < fs.g.maxClust && fs.fat[chain[c]] >= 2
      ensures fs.fat[chain[c]] < fs.g.maxClust <==> c + 1 < |chain|
      ensures c + 1 < |chain| ==> fs.fat[chain[c]] == chain[c + 1]
      ensures 0 < fs.g.csize && |slots| == SLOTS * |sects| && |sects| == Times(|chain|, fs.g.csize)
    {
      assert LinkAt(fs.fat, chain, c);
      assert c + 1 < |chain| ==> LinkAt(fs.fat, chain, c + 1);
    }

    // Sector j of the chain's cluster c is a sector of the table.
    lemma ClusterAt(c: nat, j: nat)
      requires Valid() && sclust != 0 && c < |chain| && (j == 0 || j < fs.g.csize)
      ensures 2 <= chain[c] < fs.g.maxClust
      ensures Times(c, fs.g.csize) + j < |sects| && sects[Times(c, fs.g.csize) + j] == fs.g.ClusterSect(chain[c]) + j
    {
      assert LinkAt(fs.fat, chain, c);
      SectsAre(fs.g, chain, sects);
      ChainSectAt(fs.g, chain, c, j);
    }

    /** dir_seek: the cursor to slot idx. */
    method DirSeek(idx: nat) returns (res: FResult)
      requires Valid() && idx < 0x1_0000
      modifies this`index, this`sect, this`ofs, this`clust, this`q, this`ci, fs`disk, fs`winsect, fs`wflag, fs.win
      ensures Valid() && res == if idx < |slots| then Ok else IntErr
      ensures res == Ok ==> Here() && index == idx
    {
      index := idx;
      var clst := sclust;
      assert clst != 0 ==> LinkAt(fs.fat, chain, 0);
      if clst == 1 || clst >= fs.g.maxClust {
        assert false;
      }
      if clst == 0 {
        res := SeekStatic(idx);
      } else {
        res := SeekChain(idx);
      }
    }

    // Writes the zeroed window to all sectors of a cluster, as dir_next does for a new one; the window is left on
    // the first of them.
    method ZeroCluster(clst: nat)
      requires fs.Valid() && fs.Coherent() && 2 <= clst < fs.g.maxClust
      modifies fs`disk, fs`winsect, fs`wflag, fs`logical, fs.win
      ensures fs.Valid() && fs.Coherent() && fs.winsect == fs.g.ClusterSect(clst) && IsZero(fs.win[..])
      ensures fs.logical == Filled(old(fs.logical), fs.g.ClusterSect(clst), fs.g.csize, fs.win[..])
    {
      hide IsFat, Mirrored;
      var first := fs.g.ClusterSect(clst);
      ghost var d := fs.logical;
      ClusterInData(fs.g, |fs.disk|, clst, 0);
      fs.ClaimWindow(first);
      forall k | 0 <= k < SECTOR_SIZE {
        fs.win[k] := 0;
      }
      OverlayClean(fs.g, fs.disk, first, fs.win[..], fs.logical);
      var c := 0;
      ghost var z: Sector := fs.win[..];
      while c < fs.g.csize
        invariant c <= fs.g.csize && fs.winsect == first + c && !fs.wflag && fs.win[..] == z
        invariant fs.Clean() && fs.logical == Filled(d, first, c, z)
      {
        ClusterInData(fs.g, |fs.disk|, clst, c);
        fs.FlushHere();
        assert Filled(d, first, c, z)[first + c := z] == Filled(d, first, c + 1, z);
        fs.winsect := fs.winsect + 1;
        c := c + 1;
      }
      fs.winsect := fs.winsect - c;
      OverlayClean(fs.g, fs.disk, first, fs.win[..], fs.logical);
    }

    // The table with zero cluster clst behind it: what the slots are then.
    lemma TableGrown(d: Disk, mid: Disk, s: seq<nat>, was: seq<nat>, clst: nat, z: Sector)
      requires fs.g.Valid(|d|) && fs.g.Valid(|mid|) && SameOutsideFat(fs.g, d, mid) && AreSects(fs.g, s, was)
               && HoldsSlots(d, was, slots)
      requires TableSects(fs.g, |d|, was) && |fs.fat| == fs.g.maxClust && IsChain(fs.fat, s + [clst]) && IsZero(z)
      requires |was| + fs.g.csize <= 4096
      ensures AreSects(fs.g, s + [clst], ChainSects(fs.g, s + [clst])) && was <= ChainSects(fs.g, s + [clst])
      ensures var e := Filled(mid, fs.g.ClusterSect(clst), fs.g.csize, z);
              && HoldsSlots(e, ChainSects(fs.g, s + [clst]), slots + ZeroSlots(SLOTS * fs.g.csize))
              && OnlyChanged(fs.g, d, e, ChainSects(fs.g, s + [clst]))
      ensures TableSects(fs.g, |d|, ChainSects(fs.g, s + [clst]))
    {
      var g, t, more := fs.g, s + [clst], ClusterSects(fs.g, clst);
      var e := Filled(mid, g.ClusterSect(clst), g.csize, z);
      SectsAre(g, s, was);
      ChainSectsAppend(g, s, clst);
      ChainTable(g, d, fs.fat, t);
      forall k | 0 <= k < |more| ensures more[k] < |e| && IsZero(e[more[k]]) {
        assert t[|s|] == clst && LinkAt(fs.fat, t, |s|);
        ClusterInData(g, |d|, clst, k);
      }
      forall k | 0 <= k < |was| ensures e[was[k]] == d[was[k]] {
        assert At(was[k]);
        OldSector(was, more, g.ClusterSect(clst), g.csize, k);
      }
      SlotsGrown(d, e, was, slots, more);
      forall k | At(k) && 0 <= k < |d| && (k < g.fatbase || g.CopiesEnd() <= k) && k !in was + more
        ensures d[k] == e[k]
      {
        if g.ClusterSect(clst) <= k < g.ClusterSect(clst) + g.csize {
          InCluster(g, clst, k);
        }
      }
    }

    lemma InCluster(g: Geometry, clst: nat, k: nat)
      requires g.ClusterSect(clst) <= k < g.ClusterSect(clst) + g.csize
      ensures k in ClusterSects(g, clst)
    {
      assert ClusterSects(g, clst)[k - g.ClusterSect(clst)] == k;
    }

    // A sector of the old table is none of the new cluster's.
    lemma OldSector(was: seq<nat>, more: seq<nat>, first: nat, n: nat, k: nat)
      requires AllDifferent(was + more) && |more| == n && k < |was| && forall j :: 0 <= j < n ==> more[j] == first + j
      ensures !(first <= was[k] < first + n)
    {
      if first <= was[k] < first + n {
        var m := |was| + (was[k] - first);
        assert At(k) && At(m);
      }
    }

    // The table is as it was.
    twostate predicate SameTable()
      reads this`chain, this`sects, this`slots, fs`logical, fs`fat
    {
      chain == old(chain) && sects == old(sects) && slots == old(slots) && fs.logical == old(fs.logical)
        && fs.fat == old(fs.fat)
    }

    // The table has been stretched by a cluster of zero slots.
    twostate predicate Longer()
      reads this`chain, this`sects, this`slots, fs`logical
    {
      && |chain| == |old(chain)| + 1 && old(sects) <= sects && slots == old(slots) + ZeroSlots(SLOTS * fs.g.csize)
      && OnlyChanged(fs.g, old(fs.logical), fs.logical, sects)
    }

    // The stretching part of dir_next: a new cluster behind the last one, filled with zeros.
    method Stretch(ghost chains: set<seq<nat>>) returns (res: FResult, clst: nat, ghost chains': set<seq<nat>>)
      requires Valid() && fs.Owns(chains, chain) && sclust != 0 && clust == chain[|chain| - 1] && |slots| < 0x1_0000
      modifies this`chain, this`sects, this`slots, fs, fs.win
      ensures Valid() && fs.Owns(chains', chain) && chains' - {chain} == chains - {old(chain)}
      ensures res == if old(fs.NoFree()) then Denied else Ok
      ensures res != Ok ==> SameTable() && chains' == chains
      ensures res == Ok ==> Longer() && chain == old(chain) + [clst]
    {
      hide TableSects;
      NoReservedLink(fs.fat, chains);
      EndMark(fs.g, |fs.disk|);
      assert LinkAt(fs.fat, chain, |chain| - 1);
      ghost var d, fat := fs.logical, fs.fat;
      chains' := chains;
      clst := fs.CreateChain(clust);
      if clst == 1 {
        assert false;
      }
      res := if clst == 0 then Denied else Ok;
      if res == Ok {
        ghost var mid := fs.logical;
        assert |sects| == Times(|chain|, fs.g.csize);
        WholeClusters(fs.g.csize, |chain|);
        ZeroCluster(clst);
        chains' := GrowChain(fat, chains, chain, clst, Cut(fs.g.fsType, END_OF_CHAIN));
        assert fs.fat == Linked(fat, clust, clst, Cut(fs.g.fsType, END_OF_CHAIN));
        TableGrown(d, mid, chain, sects, clst, fs.win[..]);
        chain := chain + [clst];
        sects := ChainSects(fs.g, chain);
        slots := slots + ZeroSlots(SLOTS * fs.g.csize);
      }
    }

    // The cluster behind the current one: the next of the chain, or a new one.
    method ClusterBehind(stretch: bool, ghost chains: set<seq<nat>>)
      returns (res: FResult, clst: nat, ghost chains': set<seq<nat>>)
      requires Valid() && sclust != 0 && ci < |chain| && clust == chain[ci] && Times(ci + 1, fs.g.csize) < 4096
      requires stretch ==> fs.Owns(chains, chain)
      modifies this`chain, this`sects, this`slots, fs, fs.win
      ensures Valid() && (stretch ==> fs.Owns(chains', chain) && chains' - {chain} == chains - {old(chain)})
      ensures res == if ci + 1 < old(|chain|) then Ok else if !stretch then NoFile else if old(fs.NoFree()) then Denied
                else Ok
      ensures if res == Ok && ci + 1 == old(|chain|) then Longer() else SameTable() && chains' == chains
      ensures res == Ok ==> ci + 1 < |chain| && clst == chain[ci + 1]
    {
      res, chains' := Ok, chains;
      assert LinkAt(fs.fat, chain, ci);
      assert ci + 1 < |chain| ==> LinkAt(fs.fat, chain, ci + 1);
      clst := fs.GetCluster(clust);
      if clst <= 1 {
        assert false;
      }
      if clst >= fs.g.maxClust {
        if !stretch {
          return NoFile, clst, chains';
        }
        res, clst, chains' := Stretch(chains);
      }
    }

    // The cluster-boundary step of dir_next: follow the chain, or stretch it.
    method NextCluster(stretch: bool, ghost chains: set<seq<nat>>) returns (res: FResult, ghost chains': set<seq<nat>>)
      requires Valid() && sclust != 0 && ci < |chain| && clust == chain[ci] && q + 1 == Times(ci + 1, fs.g.csize) < 4096
      requires stretch ==> fs.Owns(chains, chain)
      modifies this`sect, this`clust, this`q, this`ci, this`chain, this`sects, this`slots, fs, fs.win
      ensures Valid() && (stretch ==> fs.Owns(chains', chain) && chains' - {chain} == chains - {old(chain)})
      ensures res == if old(ci) + 1 < old(|chain|) then Ok else if !stretch then NoFile
                else if old(fs.NoFree()) then Denied else Ok
      ensures if res == Ok && old(ci) + 1 == old(|chain|) then Longer() else SameTable() && chains' == chains
      ensures res == Ok ==> q == old(q) + 1 < |sects| && sect == sects[q] && OnCluster()
    {
      hide Valid;
      var clst;
      res, clst, chains' := ClusterBehind(stretch, chains);
      if res == Ok {
        ci := ci + 1;
        q := q + 1;
        HasClusters();
        ClusterAt(ci, 0);
        clust := clst;
        sect := fs.g.ClusterSect(clst);
      }
    }

    // The static arm of the sector-boundary step of dir_next.
    method NextStatic(i: nat) returns (res: FResult)
      requires Valid() && Here() && i == index + 1 == SLOTS * (q + 1) < 0x1_0000 && sclust == 0
      modifies this`sect, this`q
      ensures Valid() && res == if i < |slots| then Ok else NoFile
      ensures res == Ok ==> q == old(q) + 1 < |sects| && sect == sects[q] && OnCluster()
    {
      sect := sect + 1;
      if i >= fs.g.nRootdir {
        return NoFile;
      }
      q := q + 1;
      res := Ok;
    }

    lemma HasClusters()
      requires Valid() && sclust != 0
      ensures 0 < fs.g.csize && |slots| == SLOTS * |sects| && |sects| == Times(|chain|, fs.g.csize) <= 4096
    {
    }

    // The sector-boundary step of dir_next; i is the number of the next slot.
    method NextSector(i: nat, stretch: bool, ghost chains: set<seq<nat>>)
      returns (res: FResult, ghost chains': set<seq<nat>>)
      requires Valid() && Here() && i == index + 1 == SLOTS * (q + 1) < 0x1_0000 && (stretch ==> fs.Owns(chains, chain))
      modifies this`sect, this`clust, this`q, this`ci, this`chain, this`sects, this`slots, fs, fs.win
      ensures Valid() && (stretch ==> fs.Owns(chains', chain) && chains' - {chain} == chains - {old(chain)})
      ensures res == if i < old(|slots|) then Ok
                     else if !stretch || sclust == 0 then NoFile
                     else if old(fs.NoFree()) then Denied else Ok
      ensures if res == Ok && i == old(|slots|) then Longer() else SameTable() && chains' == chains
      ensures res == Ok ==> q == old(q) + 1 < |sects| && sect == sects[q] && OnCluster()
    {
      hide Valid;
      chains' := chains;
      if sclust == 0 {
        res := NextStatic(i);
        return;
      }
      HasClusters();
      ClusterEnds();
      LastCluster();
      if i / SLOTS % fs.g.csize == 0 {
        res, chains' := NextCluster(stretch, chains);
      } else {
        sect := sect + 1;
        ClusterAt(ci, q - Times(ci, fs.g.csize));
        ClusterAt(ci, q + 1 - Times(ci, fs.g.csize));
        q := q + 1;
        res := Ok;
      }
    }

    // The step of dir_next to the sector that slot i is in.
    method ToSector(i: nat, stretch: bool, ghost chains: set<seq<nat>>)
      returns (res: FResult, ghost chains': set<seq<nat>>)
      requires Valid() && Here() && i == index + 1 < 0x1_0000 && (stretch ==> fs.Owns(chains, chain))
      modifies this`sect, this`clust, this`q, this`ci, this`chain, this`sects, this`slots, fs, fs.win
      ensures Valid() && (stretch ==> fs.Owns(chains', chain) && chains' - {chain} == chains - {old(chain)})
      ensures res == if i < old(|slots|) then Ok
                     else if !stretch || sclust == 0 then NoFile
                     else if old(fs.NoFree()) then Denied else Ok
      ensures if res == Ok && i == old(|slots|) then Longer() else SameTable() && chains' == chains
      ensures res == Ok ==>
                q < |sects| && sect == sects[q] && i % SLOTS * 32 == 32 * (i - SLOTS * q) < SECTOR_SIZE
                && OnCluster()
    {
      NextPlace(index, q, ofs);
      if i % SLOTS == 0 {
        res, chains' := NextSector(i, stretch, chains);
      } else {
        SlotHere();
        NotAtEnd(i);
        res, chains' := Ok, chains;
      }
    }

    // A slot that does not start a sector is in the table if the slot in front of it is.
    lemma NotAtEnd(i: nat)
      requires HoldsSlots(fs.logical, sects, slots) && i - 1 < |slots| && 0 < i && i % SLOTS != 0
      ensures i < |slots|
    {
    }

    /** dir_next: the cursor to the next slot. At the end of a chain the table is stretched if that is asked for. */
    method DirNext(stretch: bool, ghost chains: set<seq<nat>>) returns (res: FResult, ghost chains': set<seq<nat>>)
      requires Valid() && Here() && (stretch ==> fs.Owns(chains, chain))
      modifies this`index, this`sect, this`ofs, this`clust, this`q, this`ci, this`chain, this`sects, this`slots, fs,
        fs.win
      ensures Valid() && (stretch ==> fs.Owns(chains', chain) && chains' - {chain} == chains - {old(chain)})
      ensures res == if old(index) + 1 < old(|slots|) then Ok
                     else if !stretch || sclust == 0 || old(index) == 0xFFFF then NoFile
                     else if old(fs.NoFree()) then Denied else Ok
      ensures if res == Ok && old(index) + 1 == old(|slots|) then Longer() else SameTable() && chains' == chains
      ensures res == Ok ==> Here() && index == old(index) + 1
    {
      chains' := chains;
      var i := (index + 1) % 0x1_0000;
      if i == 0 || sect == 0 {
        res := NoFile;
      } else {
        res, chains' := ToSector(i, stretch, chains);
        if res == Ok {
          PutAt(i);
        }
      }
    }

    // The cursor to slot i of the sector it is on.
    method PutAt(i: nat)
      requires q < |sects| && sect == sects[q] && i < 0x1_0000 && i % SLOTS * 32 == 32 * (i - SLOTS * q) < SECTOR_SIZE
               && OnCluster()
      modifies this`index, this`ofs
      ensures Here() && index == i
    {
      index := i;
      ofs := i % SLOTS * 32;
    }

    // The place of the slot behind slot i of sector p.
    lemma NextPlace(i: nat, p: nat, o: nat)
      requires 32 * (i - SLOTS * p) == o < SECTOR_SIZE
      ensures (i + 1) % SLOTS == 0 ==>
                i + 1 == SLOTS * (p + 1) && (i + 1) % SLOTS * 32 == 32 * (i + 1 - SLOTS * (p + 1))
      ensures (i + 1) % SLOTS != 0 ==> (i + 1) % SLOTS * 32 == 32 * (i + 1 - SLOTS * p) < SECTOR_SIZE
    {
      SlotPlace(i, p, i - SLOTS * p);
    }

    // The next slot starts a sector: when it starts a cluster.
    lemma ClusterEnds()
      requires Here() && index + 1 == SLOTS * (q + 1) && sclust != 0
      ensures 0 < fs.g.csize && ((index + 1) / SLOTS % fs.g.csize == 0 <==> q + 1 == Times(ci + 1, fs.g.csize))
    {
      var j := q + 1 - Times(ci, fs.g.csize);
      assert q + 1 == Times(ci, fs.g.csize) + j;
      RestOfStep(q + 1, ci, j, fs.g.csize);
    }

    lemma LastCluster()
      requires Valid() && sclust != 0 && ci < |chain|
      ensures Times(ci + 1, fs.g.csize) < |sects| <==> ci + 1 < |chain|
    {
      if ci + 1 < |chain| {
        TimesOrdered(ci + 1, |chain|, fs.g.csize);
      }
    }

    // The part of x behind a whole number of steps.
    lemma RestOfStep(x: nat, n: nat, j: nat, k: nat)
      requires x == Times(n, k) + j && 0 < j <= k
      ensures x % k == 0 <==> j == k
    {
      if j < k {
        StepOf(x, n, k);
      } else {
        assert Times(n + 1, k) == x;
        TimesOrdered(n + 1, n + 2, k);
        StepOf(x, n + 1, k);
      }
      Remainder(x, k);
    }

    lemma Remainder(x: nat, k: nat)
      requires 0 < k
      ensures x % k == x - x / k * k
    {
    }

    lemma SlotHere()
      requires Valid() && Here()
      ensures index < |slots| && ofs + 32 <= SECTOR_SIZE && slots[index] == fs.logical[sect][ofs..ofs + 32]
    {
      SlotShown(fs.logical, sects, slots, q, index - SLOTS * q);
    }

    // The current slot, brought into the window.
    method LoadSlot() returns (slot: Slot)
      requires Valid() && Here()
      modifies fs`disk, fs`winsect, fs`wflag, fs.win
      ensures Valid() && index < |slots| && slot == slots[index] && fs.winsect == sect && fs.winsect != 0
      ensures ofs + 32 <= SECTOR_SIZE && slot == fs.win[ofs..ofs + 32]
    {
      SlotHere();
      fs.MoveWindow(sect);
      slot := fs.win[ofs..ofs + 32];
    }

    // Writes the current slot, which the window shows.
    method StoreSlot(slot: Slot)
      requires Valid() && Here() && fs.winsect == sect && fs.winsect != 0
      modifies this`slots, fs`wflag, fs`logical, fs.win
      ensures Valid() && index < |old(slots)| && slots == old(slots)[index := slot]
      ensures OnlyChanged(fs.g, old(fs.logical), fs.logical, sects)
    {
      SlotHere();
      fs.WindowShows();
      ghost var d := fs.logical;
      fs.StoreData(ofs, slot);
      SlotStored(d, sects, slots, q, index - SLOTS * q, slot, fs.logical);
      slots := slots[index := slot];
    }

    // What the search looks for.
    ghost function SearchKey(): Key
      reads this`fn, this`useLfn, lfn
    {
      Key(useLfn, lfn[..], fn.sfn, fn.status.loss)
    }

    ghost predicate Named()
      reads this`fn
    {
      lfn.Length == MAX_LFN + 1 && |fn.sfn| == 11 && lfn as object != fs.win as object
    }

    // What is left of the search at the current slot.
    ghost function SearchFrom(look: Look): Search
      requires Named() && OrdersGood(slots) && index < |slots|
      reads this`fn, this`useLfn, this`slots, this`index, lfn
    {
      Find(slots[index..], index, SearchKey(), look)
    }

    // The long-name arm of the loop of dir_find.
    method MatchSegment(slot: Slot, ord0: byte, sum0: byte) returns (ord: byte, sum: byte)
      requires Named() && 1 <= OrderOf(slot[0]) && useLfn
      modifies this`lfnIdx
      ensures Look(ord, sum, lfnIdx) == SegmentLook(SearchKey(), slot, index, Look(ord0, sum0, old(lfnIdx)))
    {
      ord, sum := ord0, sum0;
      var c := slot[0];
      if IsLast(c) {
        sum := slot[13];
        c := OrderOf(c);
        ord := c;
        lfnIdx := index;
      }
      var ok := c == ord && sum == slot[13];
      if ok {
        ok := TestLfn(lfn[..], slot);
      }
      ord := if ok then ord - 1 else NO_ORDER;
    }

    // What is left of the search behind the current slot.
    ghost function AfterSlot(slot: Slot, look: Look): Search
      requires Named() && index < |slots| && OrdersGood(slots[index + 1..])
      reads this`fn, this`useLfn, this`slots, this`index, lfn
    {
      var i, rest, key := index, slots[index + 1..], SearchKey();
      if slot[0] == 0 then Miss
      else if IsSkipped(slot) then Find(rest, i + 1, key, look.(ord := NO_ORDER))
      else if IsLfnSlot(slot) then Find(rest, i + 1, key, if useLfn then SegmentLook(key, slot, i, look) else look)
      else if look.ord == 0 && look.sum == SumOf(slot, 11) then Hit(i, look.lfnIdx)
      else if !fn.status.loss && slot[..11] == fn.sfn then Hit(i, NO_LFN)
      else Find(rest, i + 1, key, Look(NO_ORDER, look.sum, NO_LFN))
    }

    // The search at the current slot, one step unfolded.
    lemma SearchStep(look: Look)
      requires Named() && OrdersGood(slots) && index < |slots|
      ensures OrdersGood(slots[index + 1..])
      ensures SearchFrom(look) == AfterSlot(slots[index], look)
    {
      assert slots[index..][0] == slots[index] && slots[index..][1..] == slots[index + 1..];
    }

    // What the loop of dir_find makes of a slot that is not the end of the table.
    method Examine(slot: Slot, ord0: byte, sum0: byte) returns (found: bool, ord: byte, sum: byte)
      requires Named() && OrdersGood(slots) && index < |slots| && slot == slots[index] && slot[0] != 0
      modifies this`lfnIdx
      ensures var r := old(SearchFrom(Look(ord0, sum0, lfnIdx)));
              && OrdersGood(slots[index + 1..])
              && r == if found then Hit(index, lfnIdx)
                 else Find(slots[index + 1..], index + 1, SearchKey(), Look(ord, sum, lfnIdx))
    {
      SearchStep(Look(ord0, sum0, lfnIdx));
      found, ord, sum := false, ord0, sum0;
      if IsSkipped(slot) {
        ord := NO_ORDER;
      } else if IsLfnSlot(slot) {
        if useLfn {
          ord, sum := MatchSegment(slot, ord, sum);
        }
      } else {
        var s := SumSfn(slot);
        if ord == 0 && sum == s {
          return true, ord, sum;
        }
        ord, lfnIdx := NO_ORDER, NO_LFN;
        found := !fn.status.loss && slot[..11] == fn.sfn;
      }
    }

    // Looks at the current slot: whether the table ends there, and whether it is the entry.
    method LookHere(ord0: byte, sum0: byte) returns (end: bool, found: bool, ord: byte, sum: byte)
      requires Valid() && Named() && OrdersGood(slots) && Here() && index < |slots|
      modifies this`lfnIdx, fs`disk, fs`winsect, fs`wflag, fs.win
      ensures Valid() && (!found && !end ==> OrdersGood(slots[index + 1..]))
      ensures old(SearchFrom(Look(ord0, sum0, lfnIdx)))
              == if end then Miss
                 else if found then Hit(index, lfnIdx)
                 else Find(slots[index + 1..], index + 1, SearchKey(), Look(ord, sum, lfnIdx))
    {
      SearchStep(Look(ord0, sum0, lfnIdx));
      end, found, ord, sum := true, false, ord0, sum0;
      var slot := LoadSlot();
      if slot[0] != 0 {
        end := false;
        found, ord, sum := Examine(slot, ord, sum);
      }
    }

    // One turn of the loop of dir_find.
    method FindTurn(ord0: byte, sum0: byte) returns (done: bool, res: FResult, ord: byte, sum: byte)
      requires Valid() && Named() && OrdersGood(slots) && Here() && index < |slots|
      modifies this`index, this`sect, this`ofs, this`clust, this`q, this`ci, this`chain, this`sects, this`slots,
        this`lfnIdx,
        fs, fs.win
      ensures Valid() && SameTable()
      ensures !done ==> Here() && old(index) < index < |slots|
      ensures !done ==> SearchFrom(Look(ord, sum, lfnIdx)) == old(SearchFrom(Look(ord0, sum0, lfnIdx)))
      ensures done ==> Finished(res, old(SearchFrom(Look(ord0, sum0, lfnIdx))))
    {
      hide Valid;
      var end, found;
      end, found, ord, sum := LookHere(ord0, sum0);
      if end || found {
        return true, if end then NoFile else Ok, ord, sum;
      }
      ghost var none;
      res, none := DirNext(false, {});
      done := res != Ok;
    }

    // The search has come to its result.
    ghost predicate Finished(res: FResult, r: Search)
      reads this, fs`fat
    {
      match r
      case Hit(i, l) => res == Ok && Here() && index == i && lfnIdx == l
      case Miss => res == NoFile
    }

    /** dir_find: the cursor to the entry with the name, if there is one. */
    method DirFind() returns (res: FResult)
      requires Valid() && Named() && OrdersGood(slots)
      modifies this`index, this`sect, this`ofs, this`clust, this`q, this`ci, this`chain, this`sects, this`slots,
        this`lfnIdx, fs, fs.win
      ensures Valid() && SameTable()
      ensures Finished(res, Find(slots, 0, SearchKey(), Look(NO_ORDER, NO_ORDER, old(lfnIdx))))
    {
      res := DirSeek(0);
      if res != Ok {
        assert false;
      }
      var done, ord: byte, sum: byte := false, NO_ORDER, NO_ORDER;
      assert slots[0..] == slots;
      ghost var goal := SearchFrom(Look(ord, sum, lfnIdx));
      while !done
        invariant Valid() && SameTable()
        invariant !done ==> Here() && index < |slots| && SearchFrom(Look(ord, sum, lfnIdx)) == goal
        invariant done ==> Finished(res, goal)
        decreases !done, |slots| - index
      {
        done, res, ord, sum := FindTurn(ord, sum);
      }
    }

    // A search for a short name alone that finds nothing.
    lemma ShortNotThere(items: seq<Item>, name: seq<Wchar>, look: Look)
      requires Named() && !useLfn && !fn.status.loss && IsTable(slots, items) && Idle(look)
      requires InBuffer(lfn[..], name) && forall k :: 0 <= k < |name| ==> name[k] != 0
      ensures OrdersGood(slots)
      ensures Find(slots, 0, SearchKey(), look) == Miss <==> NoSuchShort(items, fn.sfn)
    {
      FindIsLookup(slots, 0, items, SearchKey(), name, look);
      MissIsNoShort(items, 0, SearchKey(), name);
    }

    lemma {:induction false} MissIsNoShort(items: seq<Item>, i: nat, key: Key, name: seq<Wchar>)
      requires !key.hasLfn && !key.loss
      ensures Lookup(items, i, key, name) == Miss <==> NoSuchShort(items, key.sfn)
      decreases |items|
    {
      if items == [] {
      } else {
        MissIsNoShort(items[1..], i + Size(items[0]), key, name);
        assert forall k :: 0 <= k < |items| ==> items[k] == if k == 0 then items[0] else items[1..][k - 1];
      }
    }

    // One turn of the loop that looks for a numbered name: is number n taken?
    method TryNumber(src: seq<byte>, n: nat, ghost name: seq<Wchar>, ghost items: seq<Item>) returns (taken: bool)
      requires Valid() && Named() && IsTable(slots, items) && !useLfn && |src| == 11 && StartsName(src[0]) && n < 100
      requires InBuffer(lfn[..], name) && name != [] && forall k :: 0 <= k < |name| ==> name[k] != 0
      modifies this`fn, this`index, this`sect, this`ofs, this`clust, this`q, this`ci, this`chain, this`sects,
        this`slots,
        this`lfnIdx, fs, fs.win
      ensures Valid() && Named() && SameTable() && StartsName(fn.sfn[0]) && IsNumberedName(fn.sfn, src, name, n)
      ensures if taken then NumberTaken(items, src, name, n) else NoSuchShort(items, fn.sfn)
    {
      var dst := GenNumName(src, lfn, name, n);
      NumberedInUse(dst, src, NumberTail(name, n));
      fn := ShortName(dst, NameStatus(false, false, false, false, false));
      ShortNotThere(items, name, Look(NO_ORDER, NO_ORDER, lfnIdx));
      var res := DirFind();
      taken := res == Ok;
    }

    /** The first part of dir_register: the first of 99 numbered names that no object of the table has yet. */
    method NumberName(ghost name: seq<Wchar>, ghost items: seq<Item>) returns (res: FResult)
      requires Valid() && Named() && IsTable(slots, items)
      requires InBuffer(lfn[..], name) && name != [] && (forall k :: 0 <= k < |name| ==> name[k] != 0)
               && StartsName(fn.sfn[0])
      modifies this`fn, this`useLfn, this`index, this`sect, this`ofs, this`clust, this`q, this`ci, this`chain,
        this`sects, this`slots,
        this`lfnIdx, fs, fs.win
      ensures Valid() && Named() && SameTable() && (res == Ok || res == Denied)
      ensures res == Ok ==> fn.status == old(fn.status) && StartsName(fn.sfn[0]) && useLfn
      ensures if res == Ok then FirstNumbered(items, fn.sfn, old(fn.sfn), name)
                else NumbersTaken(items, old(fn.sfn), name, 100)
    {
      hide Valid;
      var sn := fn;
      useLfn := false;
      var n, taken := 1, true;
      while n < 100 && taken
        invariant 1 <= n <= 100 && Valid() && Named() && SameTable() && !useLfn
        invariant NumbersTaken(items, sn.sfn, name, n)
        invariant !taken ==>
                    n < 100 && NoSuchShort(items, fn.sfn) && StartsName(fn.sfn[0])
                    && IsNumberedName(fn.sfn, sn.sfn, name, n)
        decreases taken, 100 - n
      {
        taken := TryNumber(sn.sfn, n, name, items);
        if taken {
          n := n + 1;
        }
      }
      if taken {
        return Denied;
      }
      fn := fn.(status := sn.status);
      useLfn := true;
      res := Ok;
    }

    // The table has no ne free slots in a row, and cannot be stretched: it is static, as long as a table may be, or the
    // disk is full.
    ghost predicate NoRoom(ne: nat)
      reads this`sclust, this`slots, fs`fat
    {
      IsFull() && NoRun(slots, |slots|, ne)
    }

    ghost predicate IsFull()
      reads this`sclust, this`slots, fs`fat
    {
      sclust == 0 || |slots| >= 0x1_0000 || fs.NoFree()
    }

    // The table has the same items, and nothing but its sectors and the FAT has changed.
    twostate predicate Kept(items: seq<Item>, chains: set<seq<nat>>, chains': set<seq<nat>>)
      reads this`sclust, this`chain, this`sects, this`slots, fs`logical, fs`fat
    {
      && IsTable(slots, items) && fs.Owns(chains', chain) && chains' - {chain} == chains - {old(chain)}
      && old(sects) <= sects && OnlyChanged(fs.g, old(fs.logical), fs.logical, sects) && (old(IsFull()) ==> IsFull())
    }

    // The same, and the table has at most got longer.
    twostate predicate Held(items: seq<Item>, chains: set<seq<nat>>, chains': set<seq<nat>>)
      reads this`sclust, this`chain, this`sects, this`slots, fs`logical, fs`fat
    {
      Kept(items, chains, chains') && old(slots) <= slots
    }

    // Looks whether the current slot is free.
    method CountBlank(n0: nat, ne: nat) returns (found: bool, n: nat)
      requires Valid() && Here() && index < |slots| && Passed(slots, index, n0, ne)
      modifies fs`disk, fs`winsect, fs`wflag, fs.win
      ensures Valid() && found == (n == ne)
      ensures if found then index + 1 >= ne && FreeRun(slots, index + 1 - ne, ne) else Passed(slots, index + 1, n, ne)
    {
      var slot := LoadSlot();
      var c := slot[0];
      if c == 0xE5 || c == 0 {
        PassBlank(slots, index, n0, ne);
        n := n0 + 1;
      } else {
        PassUsed(slots, index, n0, ne);
        n := 0;
      }
      found := n == ne;
    }

    // Moves on to the next slot, stretching the table if need be.
    method NextToReserve(n: nat, ne: nat, ghost items: seq<Item>, ghost chains: set<seq<nat>>)
      returns (res: FResult, ghost chains': set<seq<nat>>)
      requires Valid() && Here() && index < |slots| && fs.Owns(chains, chain) && IsTable(slots, items)
               && Passed(slots, index + 1, n, ne)
      modifies this`index, this`sect, this`ofs, this`clust, this`q, this`ci, this`chain, this`sects, this`slots, fs,
        fs.win
      ensures Valid() && Held(items, chains, chains')
      ensures res == Ok ==> Here() && index == old(index) + 1 < |slots| && Passed(slots, index, n, ne)
      ensures res != Ok ==> (res == NoFile || res == Denied) && NoRoom(ne)
    {
      hide Valid;
      PassLonger(slots, ZeroSlots(SLOTS * fs.g.csize), index + 1, n, ne);
      Stretched(slots, ZeroSlots(SLOTS * fs.g.csize), items);
      res, chains' := DirNext(true, chains);
    }

    // One turn of the loop that reserves slots.
    method ReserveTurn(n0: nat, first0: nat, ne: nat, ghost items: seq<Item>, ghost chains: set<seq<nat>>)
      returns (found: bool, res: FResult, n: nat, first: nat, ghost chains': set<seq<nat>>)
      requires Valid() && Here() && index < |slots| && fs.Owns(chains, chain) && IsTable(slots, items)
      requires Passed(slots, index, n0, ne) && (n0 > 0 ==> first0 == index - n0)
      modifies this`index, this`sect, this`ofs, this`clust, this`q, this`ci, this`chain, this`sects, this`slots, fs,
        fs.win
      ensures Valid() && Held(items, chains, chains')
      ensures found ==> res == Ok && Here() && index + 1 == first + ne && FreeRun(slots, first, ne)
      ensures !found && res == Ok ==>
                Here() && index == old(index) + 1 < |slots| && Passed(slots, index, n, ne)
                  && (n > 0 ==> first == index - n)
      ensures res != Ok ==> (res == NoFile || res == Denied) && NoRoom(ne)
    {
      first := if n0 == 0 then index else first0;
      chains', res := chains, Ok;
      found, n := CountBlank(n0, ne);
      if !found {
        res, chains' := NextToReserve(n, ne, items, chains);
      }
    }

    // The loop that reserves slots, from the first slot on.
    method ReserveFrom(ne: nat, ghost items: seq<Item>, ghost chains: set<seq<nat>>)
      returns (res: FResult, first: nat, ghost chains': set<seq<nat>>)
      requires Valid() && Here() && index == 0 < |slots| && fs.Owns(chains, chain) && IsTable(slots, items) && 1 <= ne
      modifies this`index, this`sect, this`ofs, this`clust, this`q, this`ci, this`chain, this`sects, this`slots, fs,
        fs.win
      ensures Valid() && Held(items, chains, chains')
      ensures res == Ok ==> Here() && index + 1 == first + ne && FreeRun(slots, first, ne)
      ensures res != Ok ==> (res == NoFile || res == Denied) && NoRoom(ne)
    {
      hide Valid;
      res, chains', first := Ok, chains, 0;
      var n, found := 0, false;
      while !found && res == Ok
        invariant Valid() && Held(items, chains, chains')
        invariant !found && res == Ok ==>
                    Here() && index < |slots| && Passed(slots, index, n, ne) && (n > 0 ==> first == index - n)
        invariant found ==> res == Ok && Here() && index + 1 == first + ne && FreeRun(slots, first, ne)
        invariant res != Ok ==> (res == NoFile || res == Denied) && NoRoom(ne)
        decreases res == Ok, !found, 0x1_0000 - index
      {
        found, res, n, first, chains' := ReserveTurn(n, first, ne, items, chains');
      }
    }

    // Reserves ne free slots in a row; the cursor is on the last of them.
    method Reserve(ne: nat, ghost items: seq<Item>, ghost chains: set<seq<nat>>)
      returns (res: FResult, first: nat, ghost chains': set<seq<nat>>)
      requires Valid() && fs.Owns(chains, chain) && IsTable(slots, items) && 1 <= ne
      modifies this`index, this`sect, this`ofs, this`clust, this`q, this`ci, this`chain, this`sects, this`slots, fs,
        fs.win
      ensures Valid() && Held(items, chains, chains')
      ensures res == Ok ==> Here() && index + 1 == first + ne && FreeRun(slots, first, ne)
      ensures res != Ok ==> (res == NoFile || res == Denied) && NoRoom(ne)
    {
      res := DirSeek(0);
      if res != Ok {
        assert false;
      }
      res, first, chains' := ReserveFrom(ne, items, chains);
    }

    // The table is the same but for the contents of its slots.
    twostate predicate SameShape()
      reads this`chain, this`sects, fs`fat, fs`logical
    {
      chain == old(chain) && sects == old(sects) && fs.fat == old(fs.fat)
        && OnlyChanged(fs.g, old(fs.logical), fs.logical, sects)
    }

    // Writes one segment of the long name, and moves on to the next slot.
    method PutSegment(ghost name: seq<Wchar>, ord: nat, sum: byte) returns (res: FResult, ghost slot: Slot)
      requires Valid() && Here() && Named() && index + 1 < |slots|
      requires InBuffer(lfn[..], name) && IsName(name) && 1 <= ord <= Segments(name)
      modifies this`index, this`sect, this`ofs, this`clust, this`q, this`ci, this`chain, this`sects, this`slots, fs,
        fs.win
      ensures Valid() && Here() && res == Ok && index == old(index) + 1 && SameShape()
      ensures ord <= 20 && IsSegment(slot, name, ord, sum) && slots == old(slots)[old(index) := slot]
    {
      var was := LoadSlot();
      var dir := FitLfn(lfn[..], was, ord, sum, name);
      slot := dir;
      StoreSlot(dir);
      ghost var none;
      res, none := DirNext(false, {});
    }

    // The same, seen as progress in writing the run; t0 is the table before the first segment.
    method PutNext(ghost name: seq<Wchar>, ne: nat, sum: byte, ghost t0: seq<Slot>, ghost first: nat, ghost n: nat)
      returns (res: FResult)
      requires Valid() && Here() && Named() && InBuffer(lfn[..], name) && IsName(name) && 1 <= ne <= n == Segments(name)
      requires index == first + (n - ne) && PartRun(t0, slots, first, n - ne, n, name, sum)
      modifies this`index, this`sect, this`ofs, this`clust, this`q, this`ci, this`chain, this`sects, this`slots, fs,
        fs.win
      ensures Valid() && Here() && res == Ok && index == old(index) + 1 && SameShape()
      ensures PartRun(t0, slots, first, n - ne + 1, n, name, sum)
    {
      ghost var slot, t := [], slots;
      res, slot := PutSegment(name, ne, sum);
      PartRunMore(t0, t, first, n - ne, n, name, sum, slot);
    }

    // Writes the long name from slot first on, the last segment first; the cursor ends behind it.
    method WriteRun(first: nat, ne0: nat, ghost name: seq<Wchar>) returns (res: FResult)
      requires Valid() && Named() && InBuffer(lfn[..], name) && IsName(name) && ne0 == Segments(name) + 1
               && first + ne0 <= |slots|
      modifies this`index, this`sect, this`ofs, this`clust, this`q, this`ci, this`chain, this`sects, this`slots, fs,
        fs.win
      ensures Valid() && Here() && res == Ok && index + 1 == first + ne0 && SameShape()
      ensures PartRun(old(slots), slots, first, ne0 - 1, ne0 - 1, name, SumOf(fn.sfn, 11))
    {
      res := DirSeek(first);
      if res != Ok {
        assert false;
      }
      var sum := SumSfn(fn.sfn);
      var ne := ne0 - 1;
      while ne > 0
        invariant 0 <= ne < ne0 && Valid() && Here() && res == Ok && index + ne + 1 == first + ne0 && SameShape()
        invariant PartRun(old(slots), slots, first, ne0 - 1 - ne, ne0 - 1, name, sum)
      {
        res := PutNext(name, ne, sum, old(slots), first, ne0 - 1);
        ne := ne - 1;
      }
    }

    // How many slots the object needs.
    method SlotsNeeded(ghost name: seq<Wchar>) returns (ne: nat)
      requires Named() && InBuffer(lfn[..], name) && forall k :: 0 <= k < |name| ==> name[k] != 0
      ensures ne == if fn.status.noLfn then 1 else Segments(name) + 1
    {
      if fn.status.noLfn {
        return 1;
      }
      assert forall k :: 0 <= k < |name| ==> lfn[..][..|name|][k] == lfn[k];
      ne := 0;
      while lfn[ne] != 0
        invariant ne <= |name|
        decreases |name| - ne
      {
        ne := ne + 1;
      }
      ne := (ne + 25) / 13;
    }

    // The new object's item: its long name, unless the short one shows it, and its entry.
    ghost function NewItem(name: seq<Wchar>): Item
      requires |fn.sfn| == 11
      reads this`fn
    {
      Item.Named(if fn.status.noLfn then [] else name, EntryOf(fn))
    }

    lemma NewEntry()
      requires |fn.sfn| == 11 && StartsName(fn.sfn[0])
      ensures IsEntry(EntryOf(fn)) && EntryOf(fn)[..11] == fn.sfn && SumOf(EntryOf(fn), 11) == SumOf(fn.sfn, 11)
    {
      SumOfSame(EntryOf(fn), fn.sfn, 11);
    }

    // Writes the long name, if the object has one, into the reserved slots, on the last of which the cursor is.
    method PutLong(first: nat, ne: nat, ghost name: seq<Wchar>) returns (res: FResult)
      requires Valid() && Here() && Named() && InBuffer(lfn[..], name) && IsName(name)
      requires index + 1 == first + ne && index < |slots| && ne == if fn.status.noLfn then 1 else Segments(name) + 1
      modifies this`index, this`sect, this`ofs, this`clust, this`q, this`ci, this`chain, this`sects, this`slots, fs,
        fs.win
      ensures Valid() && Here() && res == Ok && index + 1 == first + ne && SameShape()
      ensures PartRun(old(slots), slots, first, ne - 1, ne - 1, NewItem(name).lfn, SumOf(fn.sfn, 11))
    {
      res := Ok;
      if ne > 1 {
        res := WriteRun(first, ne, name);
      }
    }

    lemma ObjectWritten(t0: seq<Slot>, t: seq<Slot>, first: nat, ne: nat, name: seq<Wchar>)
      requires |fn.sfn| == 11 && StartsName(fn.sfn[0]) && IsName(name) && ne == if fn.status.noLfn then 1
                 else Segments(name) + 1
      requires PartRun(t0, t, first, ne - 1, ne - 1, NewItem(name).lfn, SumOf(fn.sfn, 11))
      ensures Written(t0, t[first + (ne - 1) := EntryOf(fn)], first, NewItem(name))
    {
      NewEntry();
      RunWritten(t0, t, first, NewItem(name).lfn, EntryOf(fn));
    }

    // Writes the object's slots into the reserved ones, on the last of which the cursor is.
    method PutObject(first: nat, ne: nat, ghost name: seq<Wchar>) returns (res: FResult)
      requires Valid() && Here() && Named() && StartsName(fn.sfn[0]) && InBuffer(lfn[..], name) && IsName(name)
      requires index + 1 == first + ne && index < |slots| && ne == if fn.status.noLfn then 1 else Segments(name) + 1
      modifies this`index, this`sect, this`ofs, this`clust, this`q, this`ci, this`chain, this`sects, this`slots, fs,
        fs.win
      ensures Valid() && Here() && res == Ok && index + 1 == first + ne && fs.winsect == sect
              && Written(old(slots), slots, first, NewItem(name))
      ensures SameShape()
    {
      res := PutLong(first, ne, name);
      ObjectWritten(old(slots), slots, first, ne, name);
      ghost var t := slots[first + (ne - 1) := EntryOf(fn)];
      PutEntry();
      assert slots == t;
    }

    // Writes the short-name entry into the current slot.
    method PutEntry()
      requires Valid() && Here() && Named()
      modifies this`slots, fs`disk, fs`winsect, fs`wflag, fs`logical, fs.win
      ensures Valid() && Here() && index < |old(slots)| && slots == old(slots)[index := EntryOf(fn)]
              && fs.winsect == sect
      ensures OnlyChanged(fs.g, old(fs.logical), fs.logical, sects)
    {
      var _ := LoadSlot();
      StoreSlot(EntryOf(fn));
    }

    // The same, seen as the item it puts into the table.
    method PutItem(first: nat, ne: nat, ghost name: seq<Wchar>, ghost items: seq<Item>)
      returns (res: FResult, ghost items': seq<Item>)
      requires Valid() && Here() && Named() && StartsName(fn.sfn[0]) && InBuffer(lfn[..], name) && IsName(name)
               && IsTable(slots, items)
      requires index + 1 == first + ne && FreeRun(slots, first, ne) && ne == if fn.status.noLfn then 1
                 else Segments(name) + 1
      modifies this`index, this`sect, this`ofs, this`clust, this`q, this`ci, this`chain, this`sects, this`slots, fs,
        fs.win
      ensures Valid() && Here() && res == Ok && SameShape() && |slots| == |old(slots)| && fs.winsect == sect
      ensures IsTable(slots, items') && InsertedAt(items, items', NewItem(name), index)
    {
      res := PutObject(first, ne, name);
      NewEntry();
      ghost var a, gone, b := WriteItem(old(slots), items, slots, first, NewItem(name));
      items' := a + [NewItem(name)] + b;
    }

    // There is no room for an object of the name, or no short name.
    ghost predicate NoPlace(items: seq<Item>, name: seq<Wchar>)
      reads this`sclust, this`slots, fs`fat
    {
      NoPlaceIn(slots, items, IsFull(), name)
    }

    // The second part of dir_register: the object under its short name into free slots.
    method Place(ghost name: seq<Wchar>, ghost items: seq<Item>, ghost chains: set<seq<nat>>)
      returns (res: FResult, ghost items': seq<Item>, ghost chains': set<seq<nat>>)
      requires Valid() && Named() && fs.Owns(chains, chain) && IsTable(slots, items)
      requires InBuffer(lfn[..], name) && IsName(name) && StartsName(fn.sfn[0]) && fn.status == ShortOf(name).status
      modifies this`index, this`sect, this`ofs, this`clust, this`q, this`ci, this`chain, this`sects, this`slots, fs,
        fs.win
      ensures Valid() && Kept(items', chains, chains')
      ensures res == Ok ==> Here() && fs.winsect == sect && InsertedAt(items, items', NewItem(name), index)
      ensures res != Ok ==>
                items' == items && old(slots) <= slots && (res == NoFile || res == Denied)
                && NoPlace(items, name)
    {
      hide Valid, IsTable, NewItem, InBuffer;
      items' := items;
      var ne := SlotsNeeded(name);
      var first;
      res, first, chains' := Reserve(ne, items, chains);
      if res == Ok {
        res, items' := PutItem(first, ne, name, items);
      }
    }

    // The short name is the one the object of that name gets.
    ghost predicate Chosen(items: seq<Item>, name: seq<Wchar>)
      requires Named()
      reads this`fn
    {
      var s := ShortOf(name);
      && fn.status == s.status && (if s.status.loss then FirstNumbered(items, fn.sfn, s.sfn, name) else fn.sfn == s.sfn)
      && IsItemFor(NewItem(name), name)
    }

    // The short name the object gets: the name's own, or a numbered one if that has lost something.
    method ChooseName(ghost name: seq<Wchar>, ghost items: seq<Item>) returns (res: FResult)
      requires Valid() && Named() && IsTable(slots, items) && useLfn
      requires InBuffer(lfn[..], name) && IsName(name) && fn == ShortOf(name)
      modifies this`fn, this`useLfn, this`index, this`sect, this`ofs, this`clust, this`q, this`ci, this`chain,
        this`sects, this`slots,
        this`lfnIdx, fs, fs.win
      ensures Valid() && Named() && SameTable() && (res == Ok || res == Denied)
      ensures if res == Ok then useLfn && StartsName(fn.sfn[0]) && Chosen(items, name) else NoNumber(items, name)
      ensures old(IsFull()) ==> IsFull()
    {
      ShortInUse(name);
      res := Ok;
      if fn.status.loss {
        res := NumberName(name, items);
      }
      if res == Ok {
        NewEntry();
      }
    }

    /** dir_register: the named object into the table. The item list gets the new item in the place of removed slots,
        or at the end. It fails only if there is no room, or no numbered name is left, and then the items stay. */
    method DirRegister(ghost name: seq<Wchar>, ghost items: seq<Item>, ghost chains: set<seq<nat>>)
      returns (res: FResult, ghost items': seq<Item>, ghost chains': set<seq<nat>>)
      requires Valid() && Named() && fs.Owns(chains, chain) && IsTable(slots, items) && useLfn
      requires InBuffer(lfn[..], name) && IsName(name) && fn == ShortOf(name)
      modifies this`fn, this`useLfn, this`index, this`sect, this`ofs, this`clust, this`q, this`ci, this`chain,
        this`sects, this`slots,
        this`lfnIdx, fs, fs.win
      ensures Valid() && Named() && Kept(items', chains, chains')
      ensures if res == Ok then Here() && fs.winsect == sect && useLfn && Chosen(items, name)
              && InsertedAt(items, items', NewItem(name), index)
              else (res == NoFile || res == Denied) && items' == items && NoPlace(items, name) && old(slots) <= slots
    {
      hide Valid;
      items', chains' := items, chains;
      res := ChooseName(name, items);
      if res == Ok {
        res, items', chains' := Place(name, items, chains);
      }
    }

    // The part of f_open behind dir_register: the new entry, which the window shows, gets its attribute and its
    // creation time.
    method StampNew(tim: nat)
      requires Valid() && Here() && fs.winsect == sect
      modifies this`slots, fs`wflag, fs`logical, fs.win
      ensures Valid() && index < |old(slots)| && slots == old(slots)[index := Fresh(old(slots)[index], tim)]
      ensures OnlyChanged(fs.g, old(fs.logical), fs.logical, sects)
    {
      SlotHere();
      fs.WindowShows();
      StoreSlot(Fresh(fs.win[ofs..ofs + 32], tim));
    }
  }

  /** The index alone says where the cursor is: dir_next from slot i and dir_seek to slot i + 1 agree. */
  lemma CursorDetermined(d: Dir, e: Dir)
    requires d.fs == e.fs && d.Here() && e.Here() && d.index == e.index
    requires d.sclust == e.sclust && d.chain == e.chain && d.sects == e.sects
    ensures d.sect == e.sect && d.ofs == e.ofs && (d.sclust != 0 ==> d.clust == e.clust)
  {
    SlotPlace(d.index, d.q, d.index - SLOTS * d.q);
    SlotPlace(e.index, e.q, e.index - SLOTS * e.q);
    if d.sclust != 0 {
      var k := d.fs.g.csize;
      TimesUnique(d.ci, d.q - Times(d.ci, k), e.ci, e.q - Times(e.ci, k), k);
    }
  }
}
