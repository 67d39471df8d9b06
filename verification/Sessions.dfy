/** A directory and one of its files at once: what creating, writing and syncing the file keep of the directory. */
module Sessions {
  import opened Bytes
  import opened Steps
  import opened Volume
  import opened Chains
  import opened FileData
  import opened LongNames
  import opened Entries
  import opened NameMap
  import opened EntryEdits
  import opened DirData
  import opened Dirs
  import opened DirRuns
  import opened Files
  import opened FileRuns

  /** The file's entry is slot number at of the directory; q is its sector's number in the table. */
  ghost predicate EntryIn(dj: Dir, fp: File, at: nat, q: nat)
    reads dj, fp
  {
    && dj.fs == fp.fs && q < |dj.sects| && SLOTS * q <= at < SLOTS * q + SLOTS
    && fp.dirSect == dj.sects[q] && fp.dirOfs == 32 * (at - SLOTS * q)
  }

  // What f_sync writes keeps the name, and the entry stays one of a file.
  lemma StampedHead(entry: Slot, clst: nat, size: nat, tim: nat)
    requires IsEntry(entry)
    ensures SameHead(entry, Stamped(entry, clst, size, tim))
  {
    var e := Stamped(entry, clst, size, tim);
    assert e[..11] == entry[..11] && e[12] == entry[12] && e[0] == entry[0];
    ArchiveBit(entry[11], e[11]);
  }

  lemma ArchiveBit(a: byte, b: byte)
    requires b == if a / 0x20 % 2 == 1 then a else a + 0x20
    ensures b / 0x08 % 2 == a / 0x08 % 2 && (a % 0x40 != AM_LFN ==> b % 0x40 != AM_LFN)
  {
    var h, l := a / 0x20, a % 0x20;
    if h % 2 == 0 {
      var k := h / 2;
      assert a == 0x40 * k + l && b == 0x40 * k + 0x20 + l;
      assert b / 0x08 == 4 + 8 * k + l / 0x08 && a / 0x08 == 8 * k + l / 0x08;
    }
  }

  // The start cluster and the size of a fresh entry are 0.
  lemma FreshFile(entry: Slot, tim: nat)
    requires IsFresh(entry, tim)
    ensures StartCluster(entry) == 0 && FileSize(entry) == 0
  {
    assert forall k :: 18 <= k < 32 ==> entry[k] == entry[18..][k - 18];
  }

  lemma HoldsSlotsStill(d: Disk, e: Disk, sects: seq<nat>, slots: seq<Slot>)
    requires HoldsSlots(d, sects, slots) && SameOn(d, e, sects)
    ensures HoldsSlots(e, sects, slots)
  {
    forall q, r | AtSlot(q, r) && 0 <= q < |sects| && 0 <= r < SLOTS
      ensures slots[SLOTS * q + r] == SlotIn(e[sects[q]], r)
    {
      assert d[sects[q]] == e[sects[q]];
    }
  }

  // The sectors of a table lie outside a file with other clusters.
  lemma TableOutside(dj: Dir, fp: File, d: Disk, chains: set<seq<nat>>)
    requires dj.fs == fp.fs && fp.Valid0() && fp.SectsGood() && fp.fs.Owns(chains, fp.chain) && dj.OnTable()
    requires dj.chain != [] ==> dj.chain in chains - {fp.chain}
    requires TableSects(fp.fs.g, |d|, dj.sects) && OnlyChanged(fp.fs.g, d, fp.fs.logical, fp.sects)
    ensures SameOn(d, fp.fs.logical, dj.sects)
    ensures forall q :: 0 <= q < |dj.sects| ==> dj.sects[q] !in fp.sects
  {
    var g := fp.fs.g;
    SectsAre(g, fp.chain, fp.sects);
    SectsAre(g, dj.chain, dj.sects);
    forall q | 0 <= q < |dj.sects|
      ensures dj.sects[q] !in fp.sects && d[dj.sects[q]] == fp.fs.logical[dj.sects[q]]
    {
      if dj.sclust != 0 {
        NotInChain(g, fp.fs.fat, fp.chain, dj.chain, q);
      }
      assert At(dj.sects[q]);
    }
  }

  /** While a file is written, the directory stays as it is. */
  lemma DirThroughWrites(dj: Dir, fp: File, d: Disk, items: seq<Item>, chains: set<seq<nat>>)
    requires dj.fs == fp.fs && fp.Ready() && fp.fs.Coherent() && fp.fs.Owns(chains, fp.chain)
    requires PowerOfTwo(fp.fs.g.csize)
    requires dj.chain != [] ==> dj.chain in chains - {fp.chain} && dj.chain[0] == dj.sclust
    requires dj.sclust == 0 || dj.chain != []
    requires dj.sclust == 0 ==> dj.OnTable()
    requires AreSects(fp.fs.g, dj.chain, dj.sects) || dj.sclust == 0
    requires TableSects(fp.fs.g, |d|, dj.sects) && HoldsSlots(d, dj.sects, dj.slots)
    requires OnlyChanged(fp.fs.g, d, fp.fs.logical, fp.sects)
    ensures dj.Valid() && forall q :: 0 <= q < |dj.sects| ==> dj.sects[q] !in fp.sects
  {
    TableOutside(dj, fp, d, chains);
    HoldsSlotsStill(d, fp.fs.logical, dj.sects, dj.slots);
  }

  // The entry's slot, as the file sees it.
  lemma EntryIsSlot(dj: Dir, fp: File, at: nat, q: nat)
    requires dj.Valid() && EntryIn(dj, fp, at, q)
    ensures at < |dj.slots| && fp.dirSect < |fp.fs.logical| && fp.dirOfs + 32 <= SECTOR_SIZE
    ensures fp.Entry() == dj.slots[at]
  {
    SlotShown(fp.fs.logical, dj.sects, dj.slots, q, at - SLOTS * q);
  }

  // The table once the entry's sector has been changed.
  lemma EntryStored(g: Geometry, d: Disk, e: Disk, sects: seq<nat>, slots: seq<Slot>, at: nat, q: nat, entry: Slot)
    requires g.Valid(|d|) && TableSects(g, |d|, sects) && HoldsSlots(d, sects, slots) && q < |sects|
    requires SLOTS * q <= at < SLOTS * q + SLOTS && OnlyEntryChanged(g, d, e, sects[q])
    requires e[sects[q]] == Patch(d[sects[q]], 32 * (at - SLOTS * q), entry)
    ensures at < |slots| && HoldsSlots(e, sects, slots[at := entry])
  {
    var mid := d[sects[q] := e[sects[q]]];
    SlotStored(d, sects, slots, q, at - SLOTS * q, entry, mid);
    forall p | 0 <= p < |sects| ensures mid[sects[p]] == e[sects[p]] {
      assert At(sects[p]) && At(p) && At(q);
    }
    HoldsSlotsStill(mid, e, sects, slots[at := entry]);
  }

  /** f_sync, seen from the directory: the entry's slot gets the start cluster, the size and the time, and every name
      is found where it was. */
  method SyncEntry(dj: Dir, fp: File, ghost at: nat, ghost q: nat, tim: nat, ghost items: seq<Item>,
      ghost chains: set<seq<nat>>) returns (ghost items': seq<Item>)
    requires Ready(dj, items, chains) && fp.Ready() && fp.fptr <= fp.fsize
    requires EntryIn(dj, fp, at, q) && IsObjectAt(items, at) && dj.sects[q] !in fp.sects
    modifies dj`slots, fp`written, fp.fs, fp.fs.win
    ensures Ready(dj, items', chains) && fp.Ready() && fp.fs.fat == old(fp.fs.fat) && IsObjectAt(items', at)
    ensures var was := old(dj.slots);
            && at < |was|
            && dj.slots == if old(fp.written) then was[at := Stamped(was[at], fp.orgClust, fp.fsize, tim)] else was
    ensures OnlyEntryChanged(fp.fs.g, old(fp.fs.logical), fp.fs.logical, fp.dirSect)
    ensures if old(fp.written) then EditedAt(items, items', at) else items' == items
    ensures forall key: Key, name {:trigger Lookup(items', 0, key, name)} ::
              Lookup(items', 0, key, name) == Lookup(items, 0, key, name)
  {
    hide IsTable, IsNameMap, Lookup;
    items' := items;
    EntryIsSlot(dj, fp, at, q);
    ghost var d, was, dirty := fp.fs.logical, dj.slots[at], fp.written;
    ghost var entry := Stamped(was, fp.orgClust, fp.fsize, tim);
    var _ := fp.Sync(tim);
    if dirty {
      ObjectEntry(dj.slots, items, at);
      StampedHead(was, fp.orgClust, fp.fsize, tim);
      items' := EditKeepsAll(dj.slots, items, at, entry);
      StillObject(items, items', at);
      EntryStored(fp.fs.g, d, fp.fs.logical, dj.sects, dj.slots, at, q, entry);
      dj.slots := dj.slots[at := entry];
    }
  }

  lemma ObjectEntry(slots: seq<Slot>, items: seq<Item>, at: nat)
    requires IsTable(slots, items) && IsObjectAt(items, at)
    ensures at < |slots| && IsEntry(slots[at])
  {
    hide IsTable, Lookup;
    var a, item, b :| SplitAt(items, at, a, item, b);
    TableReaches(slots, items, a, item, b);
  }

  lemma StillObject(items: seq<Item>, items': seq<Item>, at: nat)
    requires EditedAt(items, items', at)
    ensures IsObjectAt(items', at)
  {
    var a, item, item', b :| Edited(items, items', a, item, item', b) && at + 1 == Total(a) + Size(item);
    assert SplitAt(items', at, a, item', b);
  }

  /** The end of f_open for a new file: it has no clusters and no bytes, and is to be written by f_sync. */
  method OpenNew(dj: Dir, ghost tim: nat, ghost items: seq<Item>) returns (fp: File)
    requires dj.Valid() && dj.Here() && dj.fs.winsect == dj.sect && IsNewFile(dj, items, tim)
    ensures fresh(fp) && fp.Ready() && fp.fs == dj.fs && EntryIn(dj, fp, dj.index, dj.q)
    ensures fp.chain == [] && fp.bytes == [] && fp.sects == [] && fp.fptr == 0 && fp.fsize == 0
    ensures fp.canRead && fp.canWrite && !fp.failed && fp.written
  {
    dj.SlotHere();
    dj.fs.WindowShows();
    FreshFile(dj.slots[dj.index], tim);
    fp := new File.Open(dj.fs, dj.ofs, true, true, []);
    fp.written := true;
  }

  // Behind the FATs nothing but the given sectors changed.
  ghost predicate ChangedOnly(g: Geometry, d: Disk, e: Disk, sects: seq<nat>, more: seq<nat>) {
    && |d| == |e|
    && forall s {:trigger At(s)} ::
         At(s) && g.CopiesEnd() <= s < |d| && s !in sects && s !in more ==> d[s] == e[s]
  }

  lemma WroteAndSynced(g: Geometry, d: Disk, mid: Disk, e: Disk, sects: seq<nat>, table: seq<nat>, q: nat)
    requires g.Valid(|d|) && OnlyChanged(g, d, mid, sects) && q < |table| && OnlyEntryChanged(g, mid, e, table[q])
    ensures ChangedOnly(g, d, e, sects, table)
  {
  }

  // The entry of the file tells its start and its size.
  ghost predicate Told(fp: File, entry: Slot)
    reads fp
  {
    StartCluster(entry) == fp.orgClust && FileSize(entry) == fp.fsize
  }

  /** A file is written from the top and synced while its directory is open: the directory stays in order and finds
      every name where it was, and the entry tells the file. */
  method WriteInDir(dj: Dir, fp: File, buffs: seq<seq<byte>>, ghost at: nat, ghost q: nat, tim: nat,
      ghost items: seq<Item>, ghost chains: set<seq<nat>>)
    returns (ns: seq<nat>, ghost items': seq<Item>, ghost chains': set<seq<nat>>)
    requires Ready(dj, items, chains) && fp.Ready() && fp.fs.Owns(chains, fp.chain) && EntryIn(dj, fp, at, q)
    requires (dj.chain != [] ==> dj.chain != fp.chain) && IsObjectAt(items, at)
    requires fp.Ahead() && fp.fptr == 0 && fp.canWrite && !fp.failed && fp.written
    requires forall i :: 0 <= i < |buffs| ==> |buffs[i]| < 0x1_0000_0000
    modifies dj`slots, fp, fp.fs, fp.fs.win
    ensures Ready(dj, items', chains') && fp.Ready() && EntryIn(dj, fp, at, q) && dj.sects[q] !in fp.sects
    ensures at < |dj.slots| && Told(fp, dj.slots[at]) && fp.SameOthers(chains, chains') && fp.fsize == |fp.bytes|
    ensures |ns| == |buffs| && Counts(fp, buffs, ns) && fp.bytes == Overwrite(old(fp.bytes), 0, Taken(buffs, ns))
    ensures EditedAt(items, items', at) && dj.sects == old(dj.sects)
    ensures ChangedOnly(fp.fs.g, old(fp.fs.logical), fp.fs.logical, fp.sects, dj.sects)
    ensures forall key: Key, name {:trigger Lookup(items', 0, key, name)} ::
              Lookup(items', 0, key, name) == Lookup(items, 0, key, name)
  {
    hide File.Cursor, Represents, Stamped, IsObjectAt, EditedAt;
    hide IsTable, IsNameMap, Lookup, Overwrite;
    ghost var d, was := fp.fs.logical, dj.slots[at];
    ns, chains' := WriteAll(fp, buffs, chains);
    DirThroughWrites(dj, fp, d, items, chains');
    assert fp.chain != [] ==> LinkAt(fp.fs.fat, fp.chain, 0);
    OpenAfterStamp(was, fp.orgClust, fp.fsize, tim);
    ghost var mid := fp.fs.logical;
    items' := SyncEntry(dj, fp, at, q, tim, items, chains');
    WroteAndSynced(fp.fs.g, d, mid, fp.fs.logical, fp.sects, dj.sects, q);
  }

  // Every lookup of the name hits slot number at.
  ghost predicate LeadsTo(items: seq<Item>, name: seq<Wchar>, at: nat) {
    forall key {:trigger Lookup(items, 0, key, name)} :: IsKeyOf(key, name) ==>
      Lookup(items, 0, key, name).Hit? && Lookup(items, 0, key, name).index == at
  }

  // Less than a whole buffer was taken only where the disk is full, or the file would reach 4 GB.
  ghost predicate AllTaken(full: bool, buffs: seq<seq<byte>>, ns: seq<nat>) {
    && |ns| == |buffs| && (forall i :: 0 <= i < |ns| ==> ns[i] <= |buffs[i]|)
    && forall i :: 0 <= i < |ns| && ns[i] < |buffs[i]| ==>
         full || 0x1_0000_0000 <= |Taken(buffs, ns)| + |buffs[i]|
  }

  // A change of the directory's own sectors touches no chain but its own.
  lemma OthersInDir(dj: Dir, d: Disk, e: Disk, chains: set<seq<nat>>, t: seq<nat>)
    requires dj.Valid() && |d| == |dj.fs.disk| && dj.fs.Owns(chains, dj.chain) && t in chains && t != dj.chain
    requires OnlyChanged(dj.fs.g, d, e, dj.sects)
    ensures SameOn(d, e, ChainSects(dj.fs.g, t))
  {
    var g, sects := dj.fs.g, ChainSects(dj.fs.g, t);
    forall p | 0 <= p < |sects| ensures sects[p] < |d| && d[sects[p]] == e[sects[p]] {
      OutsideDir(dj, chains, t, p);
      assert At(sects[p]);
    }
  }

  lemma OutsideDir(dj: Dir, chains: set<seq<nat>>, t: seq<nat>, p: nat)
    requires dj.Valid() && dj.fs.Owns(chains, dj.chain) && t in chains && t != dj.chain
             && p < |ChainSects(dj.fs.g, t)|
    ensures dj.fs.g.CopiesEnd() <= ChainSects(dj.fs.g, t)[p] < |dj.fs.disk|
    ensures ChainSects(dj.fs.g, t)[p] !in dj.sects
  {
    SectsAre(dj.fs.g, dj.chain, dj.sects);
    ChainSectInData(dj.fs.g, |dj.fs.disk|, dj.fs.fat, t, p);
    if dj.sclust != 0 {
      NotInChain(dj.fs.g, dj.fs.fat, dj.chain, t, p);
    }
  }

  // Nor does the writing of a file and of its entry touch any other.
  lemma OthersInBoth(dj: Dir, fp: File, d: Disk, chains: set<seq<nat>>, t: seq<nat>)
    requires dj.Valid() && fp.Valid0() && dj.fs == fp.fs && |d| == |fp.fs.disk|
    requires fp.fs.Owns(chains, fp.chain) && fp.fs.Owns(chains, dj.chain)
    requires t in chains && t != fp.chain && t != dj.chain
    requires ChangedOnly(fp.fs.g, d, fp.fs.logical, fp.sects, dj.sects)
    ensures SameOn(d, fp.fs.logical, ChainSects(fp.fs.g, t))
  {
    var g, sects := fp.fs.g, ChainSects(fp.fs.g, t);
    SectsAre(g, fp.chain, fp.sects);
    forall p | 0 <= p < |sects| ensures sects[p] < |d| && d[sects[p]] == fp.fs.logical[sects[p]] {
      OutsideDir(dj, chains, t, p);
      NotInChain(g, fp.fs.fat, fp.chain, t, p);
      assert At(sects[p]);
    }
  }

  lemma NoEmptyChain(fat: seq<nat>, chains: set<seq<nat>>)
    requires Represents(fat, chains)
    ensures [] !in chains
  {
  }

  // Every chain but s holds what it held.
  ghost predicate OthersSame(g: Geometry, d: Disk, e: Disk, chains: set<seq<nat>>, s: seq<nat>) {
    forall t {:trigger ChainSects(g, t)} :: t in chains && t != s ==> SameOn(d, e, ChainSects(g, t))
  }

  lemma OthersCreated(dj: Dir, d: Disk, chains: set<seq<nat>>, chains': set<seq<nat>>, s: seq<nat>)
    requires dj.Valid() && |d| == |dj.fs.logical| && dj.fs.Owns(chains', dj.chain)
    requires chains' - {dj.chain} == chains - {s} && OnlyChanged(dj.fs.g, d, dj.fs.logical, dj.sects)
    ensures OthersSame(dj.fs.g, d, dj.fs.logical, chains, s)
  {
    forall t | t in chains && t != s ensures SameOn(d, dj.fs.logical, ChainSects(dj.fs.g, t)) {
      assert t in chains' - {dj.chain};
      OthersInDir(dj, d, dj.fs.logical, chains', t);
    }
  }

  lemma OthersOn(g: Geometry, d: Disk, mid: Disk, e: Disk, chains: set<seq<nat>>, s: seq<nat>, chains': set<seq<nat>>,
      s': seq<nat>)
    requires OthersSame(g, d, mid, chains, s) && OthersSame(g, mid, e, chains', s') && chains' - {s'} == chains - {s}
    ensures OthersSame(g, d, e, chains, s)
  {
    forall t | t in chains && t != s ensures SameOn(d, e, ChainSects(g, t)) {
      assert t in chains' - {s'};
      assert SameOn(d, mid, ChainSects(g, t)) && SameOn(mid, e, ChainSects(g, t));
    }
  }
}
