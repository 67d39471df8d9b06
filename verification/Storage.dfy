/** A directory as a store of files: what is saved under a name is loaded again, however many files are saved. */
module Storage {
  import opened Bytes
  import opened Volume
  import opened Chains
  import opened FileData
  import opened FatFileSystem
  import opened LongNames
  import opened ShortNames
  import opened Entries
  import opened NameMap
  import opened EntryEdits
  import opened DirData
  import opened Dirs
  import opened DirRuns
  import opened Files
  import opened FileRuns
  import opened Sessions

  // Slot number at is the item's entry.
  ghost predicate ObjectAt(items: seq<Item>, at: nat, item: Item) {
    exists k: nat :: IsAt(items, k, at, item)
  }

  // The item is number k, and its entry is slot number at.
  ghost predicate IsAt(items: seq<Item>, k: nat, at: nat, item: Item) {
    k < |items| && items[k] == item && item.Named? && at + 1 == Total(items[..k]) + Size(item)
  }

  // No object has moved or changed.
  ghost predicate KeepsAt(items: seq<Item>, items': seq<Item>) {
    forall at: nat, item {:trigger ObjectAt(items', at, item)} ::
      ObjectAt(items, at, item) ==> ObjectAt(items', at, item)
  }

  lemma {:induction false} TotalAppend(a: seq<Item>, b: seq<Item>)
    ensures Total(a + b) == Total(a) + Total(b)
    decreases |a|
  {
    if a == [] {
      assert a + b == b;
    } else {
      assert (a + b)[1..] == a[1..] + b;
      TotalAppend(a[1..], b);
    }
  }

  // Items in front of an item in the middle.
  lemma InFront(a: seq<Item>, mid: seq<Item>, b: seq<Item>, k: nat)
    requires k < |a|
    ensures (a + mid + b)[k] == a[k] && (a + mid + b)[..k] == a[..k]
    ensures Total(a[..k]) + Size(a[k]) <= Total(a)
  {
    assert a == a[..k] + ([a[k]] + a[k + 1..]);
    TotalAppend(a[..k], [a[k]] + a[k + 1..]);
    assert ([a[k]] + a[k + 1..])[1..] == a[k + 1..];
  }

  // Items behind it.
  lemma Behind(a: seq<Item>, mid: seq<Item>, b: seq<Item>, m: nat)
    requires m < |b|
    ensures (a + mid + b)[|a| + |mid| + m] == b[m]
    ensures Total((a + mid + b)[..|a| + |mid| + m]) == Total(a) + Total(mid) + Total(b[..m])
  {
    assert (a + mid + b)[..|a| + |mid| + m] == a + mid + b[..m];
    TotalAppend(a + mid, b[..m]);
    TotalAppend(a, mid);
  }

  // Something in the middle is replaced by an item that takes as much room.
  lemma ReplacedMiddle(a: seq<Item>, mid: seq<Item>, mid': seq<Item>, b: seq<Item>, k: nat, at: nat, item: Item)
    requires IsAt(a + mid + b, k, at, item) && (k < |a| || |a| + |mid| <= k) && (b == [] || Total(mid') == Total(mid))
    ensures ObjectAt(a + mid' + b, at, item)
    ensures if k < |a| then at < Total(a) else Total(a) + Total(mid) <= at
  {
    if k < |a| {
      InFront(a, mid, b, k);
      InFront(a, mid', b, k);
      assert IsAt(a + mid' + b, k, at, item);
    } else {
      var m := k - |a| - |mid|;
      Behind(a, mid, b, m);
      Behind(a, mid', b, m);
      assert IsAt(a + mid' + b, |a| + |mid'| + m, at, item);
    }
  }

  // An insertion moves no object.
  lemma InsertKeepsAt(items: seq<Item>, items': seq<Item>, item: Item, at0: nat, at: nat, o: Item)
    requires InsertedAt(items, items', item, at0) && ObjectAt(items, at, o)
    ensures ObjectAt(items', at, o) && at != at0
  {
    var a, gone, b :| Inserted(items, items', a, gone, b, item) && at0 + 1 == Total(a) + Size(item);
    var k: nat :| IsAt(items, k, at, o);
    ReplacedMiddle(a, gone, [item], b, k, at, o);
  }

  // Nor does a change of one entry move another.
  lemma EditKeepsAt(items: seq<Item>, items': seq<Item>, at0: nat, at: nat, o: Item)
    requires EditedAt(items, items', at0) && ObjectAt(items, at, o) && at != at0
    ensures ObjectAt(items', at, o)
  {
    var a, item, item', b :| Edited(items, items', a, item, item', b) && at0 + 1 == Total(a) + Size(item);
    var k: nat :| IsAt(items, k, at, o);
    assert items[..|a|] == a;
    ReplacedMiddle(a, [item], [item'], b, k, at, o);
  }

  // The entry tells a file of n bytes on chain t.
  ghost predicate TellsFile(entry: Slot, t: seq<nat>, n: nat) {
    StartCluster(entry) == (if t == [] then 0 else t[0]) && FileSize(entry) == n
  }

  /** A directory with what it stands in: the volume's layout and contents, its items, the chains, its own chain. */
  datatype Place = Place(g: Geometry, d: Disk, items: seq<Item>, chains: set<seq<nat>>, own: seq<nat>)

  ghost function PlaceOf(dj: Dir, items: seq<Item>, chains: set<seq<nat>>): Place
    reads dj, dj.fs
  {
    Place(dj.fs.g, dj.fs.logical, items, chains, dj.chain)
  }

  // The entry in slot number at tells chain t, and that holds the bytes.
  ghost predicate StoredOn(p: Place, at: nat, bytes: seq<byte>, item: Item, t: seq<nat>) {
    && ObjectAt(p.items, at, item) && item.Named? && TellsFile(item.entry, t, |bytes|)
    && (t != [] ==> t in p.chains && t != p.own) && Holds(p.d, ChainSects(p.g, t), bytes)
  }

  ghost predicate StoredAt(p: Place, at: nat, bytes: seq<byte>) {
    exists item, t :: StoredOn(p, at, bytes, item, t)
  }

  /** Under the name stands a file of the given bytes. */
  ghost predicate Saved(p: Place, name: seq<Wchar>, bytes: seq<byte>) {
    exists at :: LeadsTo(p.items, name, at) && StoredAt(p, at, bytes)
  }

  // No file but those that are new has changed: not its name, its entry, its chain or its bytes.
  ghost predicate KeepsFiles(p: Place, p': Place) {
    && p'.g == p.g && KeepsNames(p.items, p'.items) && KeepsAt(p.items, p'.items)
    && p.chains - {p.own} <= p'.chains - {p'.own} && OthersSame(p.g, p.d, p'.d, p.chains, p.own)
  }

  lemma StillLeads(items: seq<Item>, items': seq<Item>, name: seq<Wchar>, at: nat)
    requires KeepsNames(items, items') && LeadsTo(items, name, at)
    ensures LeadsTo(items', name, at)
  {
  }

  lemma StillHolds(d: Disk, e: Disk, sects: seq<nat>, bytes: seq<byte>)
    requires Holds(d, sects, bytes) && SameOn(d, e, sects)
    ensures Holds(e, sects, bytes)
  {
    HoldsStill(d, e, sects, bytes);
  }

  /** A file that was saved stays saved. */
  lemma StillSaved(p: Place, p': Place, name: seq<Wchar>, bytes: seq<byte>)
    requires KeepsFiles(p, p') && Saved(p, name, bytes)
    ensures Saved(p', name, bytes)
  {
    hide KeepsNames, LeadsTo, Holds, SameOn, TellsFile;
    var at :| LeadsTo(p.items, name, at) && StoredAt(p, at, bytes);
    var item, t :| StoredOn(p, at, bytes, item, t);
    StillLeads(p.items, p'.items, name, at);
    assert ObjectAt(p'.items, at, item);
    if t != [] {
      assert t in p.chains - {p.own};
      assert SameOn(p.d, p'.d, ChainSects(p.g, t));
      StillHolds(p.d, p'.d, ChainSects(p.g, t), bytes);
    } else {
      NoSects(p.g, p.d, p'.d, bytes);
    }
    assert StoredOn(p', at, bytes, item, t);
  }

  // An empty file stays empty.
  lemma NoSects(g: Geometry, d: Disk, e: Disk, bytes: seq<byte>)
    requires Holds(d, ChainSects(g, []), bytes)
    ensures Holds(e, ChainSects(g, []), bytes)
  {
  }

  lemma KeepsFilesOn(p: Place, q: Place, r: Place)
    requires KeepsFiles(p, q) && KeepsFiles(q, r)
    ensures KeepsFiles(p, r)
  {
    hide IsAt, SameOn;
    KeepsOn(p.items, q.items, r.items);
    forall at: nat, item | ObjectAt(p.items, at, item) ensures ObjectAt(r.items, at, item) {
      assert ObjectAt(q.items, at, item);
    }
    forall t | t in p.chains && t != p.own ensures SameOn(p.d, r.d, ChainSects(p.g, t)) {
      assert t in p.chains - {p.own};
      SameOnOn(p.d, q.d, r.d, ChainSects(p.g, t));
    }
  }

  lemma SameOnOn(d: Disk, e: Disk, f: Disk, sects: seq<nat>)
    requires SameOn(d, e, sects) && SameOn(e, f, sects)
    ensures SameOn(d, f, sects)
  {
  }

  // The table has the entry of the object.
  lemma EntryOfObject(slots: seq<Slot>, items: seq<Item>, at: nat, item: Item)
    requires IsTable(slots, items) && ObjectAt(items, at, item)
    ensures at < |slots| && slots[at] == item.entry && IsObjectAt(items, at)
  {
    hide IsTable, Total, Size;
    var k: nat :| IsAt(items, k, at, item);
    assert items == items[..k] + [item] + items[k + 1..];
    TableReaches(slots, items, items[..k], item, items[k + 1..]);
    assert SplitAt(items, at, items[..k], item, items[k + 1..]);
  }

  lemma ObjectOfEntry(items: seq<Item>, at: nat) returns (item: Item)
    requires IsObjectAt(items, at)
    ensures ObjectAt(items, at, item) && item.Named?
  {
    var a, b;
    a, item, b :| SplitAt(items, at, a, item, b);
    assert items[..|a|] == a;
    assert IsAt(items, |a|, at, item);
  }

  // A file that is open and synced, as part of its directory.
  lemma FileStored(dj: Dir, fp: File, at: nat, items: seq<Item>, chains: set<seq<nat>>)
    requires Ready(dj, items, chains) && dj.fs == fp.fs && fp.Ready() && fp.fs.Owns(chains, fp.chain)
    requires IsObjectAt(items, at) && at < |dj.slots| && Told(fp, dj.slots[at]) && fp.fsize == |fp.bytes|
    requires fp.chain != [] ==> fp.chain != dj.chain
    ensures StoredAt(PlaceOf(dj, items, chains), at, fp.bytes)
  {
    var item := ObjectOfEntry(items, at);
    EntryOfObject(dj.slots, items, at, item);
    SectsAre(fp.fs.g, fp.chain, fp.sects);
    assert StoredOn(PlaceOf(dj, items, chains), at, fp.bytes, item, fp.chain);
  }

  lemma OverwriteNothing(data: seq<byte>)
    ensures Overwrite([], 0, data) == data
  {
  }

  /** A file that has just been created is written and synced. */
  method Fill(dj: Dir, ghost tim: nat, buffs: seq<seq<byte>>, stamp: nat, ghost items: seq<Item>,
      ghost chains: set<seq<nat>>) returns (ns: seq<nat>, ghost items': seq<Item>, ghost chains': set<seq<nat>>)
    requires Ready(dj, items, chains) && dj.Here() && dj.fs.winsect == dj.sect && IsNewFile(dj, items, tim)
    requires forall i :: 0 <= i < |buffs| ==> |buffs[i]| < 0x1_0000_0000
    modifies dj`slots, dj.fs, dj.fs.win
    ensures Ready(dj, items', chains') && EditedAt(items, items', dj.index) && AllTaken(dj.fs.NoFree(), buffs, ns)
    ensures StoredAt(PlaceOf(dj, items', chains'), dj.index, Taken(buffs, ns))
    ensures forall key: Key, name {:trigger Lookup(items', 0, key, name)} ::
              Lookup(items', 0, key, name) == Lookup(items, 0, key, name)
    ensures chains - {dj.chain} <= chains' - {dj.chain}
    ensures OthersSame(dj.fs.g, old(dj.fs.logical), dj.fs.logical, chains, dj.chain)
  {
    hide Represents, File.Cursor, Stamped, HoldsSlots, TableSects, Overwrite, StoredAt;
    hide IsTable, IsNameMap, Lookup, Known, IsFresh, EditedAt;
    ghost var at, q, d := dj.index, dj.q, dj.fs.logical;
    NoEmptyChain(dj.fs.fat, chains);
    var fp := OpenNew(dj, tim, items);
    ns, items', chains' := WriteInDir(dj, fp, buffs, at, q, stamp, items, chains);
    StillObject(items, items', at);
    OverwriteNothing(Taken(buffs, ns));
    assert chains' - {fp.chain} == chains - {[]} == chains;
    FileStored(dj, fp, at, items', chains');
    forall t | t in chains && t != dj.chain ensures SameOn(d, dj.fs.logical, ChainSects(dj.fs.g, t)) {
      OthersInBoth(dj, fp, d, chains', t);
    }
  }

  // Creating and filling a file keeps all others.
  lemma SaveKeeps(p: Place, q: Place, r: Place, item: Item, at: nat)
    requires q.g == p.g == r.g && KeepsNames(p.items, q.items) && InsertedAt(p.items, q.items, item, at)
    requires q.chains - {q.own} == p.chains - {p.own} && OthersSame(p.g, p.d, q.d, p.chains, p.own)
    requires EditedAt(q.items, r.items, at) && r.own == q.own && q.chains - {q.own} <= r.chains - {r.own}
    requires forall key: Key, name {:trigger Lookup(r.items, 0, key, name)} ::
               Lookup(r.items, 0, key, name) == Lookup(q.items, 0, key, name)
    requires OthersSame(q.g, q.d, r.d, q.chains, q.own)
    ensures KeepsFiles(p, r)
  {
    hide InsertedAt, EditedAt, IsAt, Lookup;
    KeepsOn(p.items, q.items, r.items);
    OthersOn(p.g, p.d, q.d, r.d, p.chains, p.own, q.chains, q.own);
    forall at1: nat, o | ObjectAt(p.items, at1, o) ensures ObjectAt(r.items, at1, o) {
      InsertKeepsAt(p.items, q.items, item, at, at1, o);
      EditKeepsAt(q.items, r.items, at, at1, o);
    }
  }

  /** A file to be saved: its path, what is written to it, and the times of its creation and of its last write. */
  datatype Request = Request(path: seq<byte>, buffs: seq<seq<byte>>, tim: nat, stamp: nat)

  ghost predicate Sound(r: Request) {
    OneSegment(r.path) && forall i :: 0 <= i < |r.buffs| ==> |r.buffs[i]| < 0x1_0000_0000
  }

  /** What saving a file does to its directory: the creation, and then a change of the new entry. */
  ghost predicate SaveStep(s: Snap, r: Request, made: FResult, t: Snap) {
    exists mid :: Step(s, r.path, r.tim, made, mid)
      && if made == Ok then exists at :: EditedAt(mid.items, t.items, at) else t == mid
  }

  // A file that could be created is saved under its name, as far as it was taken.
  ghost predicate SavedFile(p: Place, r: Request, made: FResult, ns: seq<nat>) {
    made == Ok && |SegmentName(r.path)| < MAX_LFN ==>
      Acceptable(r.path) && |ns| == |r.buffs| && (forall i :: 0 <= i < |ns| ==> ns[i] <= |r.buffs[i]|)
      && Saved(p, SegmentName(r.path), Taken(r.buffs, ns))
  }

  // A creation that fails keeps all files, and saves none.
  lemma FailKeeps(p: Place, q: Place, r: Request, made: FResult, ns: seq<nat>)
    requires q.g == p.g && q.items == p.items && made != Ok
    requires q.chains - {q.own} == p.chains - {p.own} && OthersSame(p.g, p.d, q.d, p.chains, p.own)
    ensures KeepsFiles(p, q) && SavedFile(q, r, made, ns)
  {
  }

  // The name leads to the entry, and the entry to the bytes.
  lemma NowSaved(items: seq<Item>, p: Place, r: Request, ns: seq<nat>, at: nat)
    requires |SegmentName(r.path)| < MAX_LFN ==> LeadsTo(items, SegmentName(r.path), at)
    requires forall key: Key, name {:trigger Lookup(p.items, 0, key, name)} ::
               Lookup(p.items, 0, key, name) == Lookup(items, 0, key, name)
    requires |ns| == |r.buffs| && forall i :: 0 <= i < |ns| ==> ns[i] <= |r.buffs[i]|
    requires StoredAt(p, at, Taken(r.buffs, ns)) && Acceptable(r.path)
    ensures SavedFile(p, r, Ok, ns)
  {
    hide StoredAt, Taken, Lookup, SegmentName;
  }

  /** A new file is created, written and synced: it is saved, unless its name has all of 255 characters, and every other
      file stays as it is. */
  method Save(dj: Dir, r: Request, ghost items: seq<Item>, ghost chains: set<seq<nat>>)
    returns (made: FResult, ns: seq<nat>, ghost items': seq<Item>, ghost chains': set<seq<nat>>)
    requires Ready(dj, items, chains) && Sound(r)
    modifies dj, dj.lfn, dj.fs, dj.fs.win
    ensures Ready(dj, items', chains') && SaveStep(old(SnapOf(dj, items)), r, made, SnapOf(dj, items'))
    ensures KeepsFiles(old(PlaceOf(dj, items, chains)), PlaceOf(dj, items', chains'))
    ensures made == Ok ==> AllTaken(dj.fs.NoFree(), r.buffs, ns)
    ensures SavedFile(PlaceOf(dj, items', chains'), r, made, ns)
  {
    hide IsTable, IsNameMap, Lookup, Known, SegmentName, Dir.Valid, IsFresh, IsNewFile, EditedAt, Taken;
    hide SavedFile, StoredAt, KeepsNames, OthersSame;
    ghost var d, p := dj.fs.logical, PlaceOf(dj, items, chains);
    ns := [];
    made, items', chains' := Create(dj, r.path, r.tim, items, chains);
    ghost var mid, q := SnapOf(dj, items'), PlaceOf(dj, items', chains');
    OthersCreated(dj, d, chains, chains', p.own);
    if made == Ok {
      ghost var at := dj.index;
      ns, items', chains' := Fill(dj, r.tim, r.buffs, r.stamp, items', chains');
      ghost var item :| IsItemFor(item, SegmentName(r.path)) && InsertedAt(items, q.items, item, at);
      SaveKeeps(p, q, PlaceOf(dj, items', chains'), item, at);
      NowSaved(q.items, PlaceOf(dj, items', chains'), r, ns, at);
    } else {
      FailKeeps(p, q, r, made, ns);
    }
  }

  // The object the cursor is on, as a file with its cursor at the top.
  method OpenStored(dj: Dir, ghost bytes: seq<byte>, ghost items: seq<Item>, ghost chains: set<seq<nat>>)
    returns (fp: File)
    requires Ready(dj, items, chains) && dj.Here() && StoredAt(PlaceOf(dj, items, chains), dj.index, bytes)
    modifies dj.fs`disk, dj.fs`winsect, dj.fs`wflag, dj.fs.win
    ensures dj.Valid() && fresh(fp) && fp.Ready() && fp.fs == dj.fs && fp.InStep() && fp.fptr == 0
    ensures fp.bytes == bytes && fp.fsize == |bytes| && fp.canRead && !fp.failed
  {
    hide Total, Size, Lookup;
    ghost var item, t :| StoredOn(PlaceOf(dj, items, chains), dj.index, bytes, item, t);
    EntryOfObject(dj.slots, items, dj.index, item);
    hide IsTable, IsNameMap, File.Cursor, HoldsSlots, FileSize, StartCluster;
    var slot := dj.LoadSlot();
    fp := new File.Open(dj.fs, dj.ofs, true, false, t);
    SectsAre(fp.fs.g, t, fp.sects);
    HoldsBytes(dj.fs.logical, fp.sects, bytes);
    HoldsBytes(dj.fs.logical, fp.sects, fp.bytes);
    EntryElsewhere(dj, chains, t, fp.sects);
  }

  // The sector of the entry is none of the file's.
  lemma EntryElsewhere(dj: Dir, chains: set<seq<nat>>, t: seq<nat>, sects: seq<nat>)
    requires dj.Valid() && dj.Here() && dj.fs.Owns(chains, dj.chain) && (t != [] ==> t in chains && t != dj.chain)
    requires sects == ChainSects(dj.fs.g, t)
    ensures dj.sect !in sects
  {
    forall p | 0 <= p < |sects| ensures sects[p] != dj.sect {
      OutsideDir(dj, chains, t, p);
    }
  }

  // All of its bytes.
  method ReadStored(dj: Dir, ghost bytes: seq<byte>, ghost items: seq<Item>, ghost chains: set<seq<nat>>)
    returns (data: seq<byte>)
    requires Ready(dj, items, chains) && dj.Here() && StoredAt(PlaceOf(dj, items, chains), dj.index, bytes)
    modifies dj.fs`disk, dj.fs`winsect, dj.fs`wflag, dj.fs.win
    ensures dj.Valid() && data == bytes
  {
    hide IsTable, IsNameMap, StoredAt, File.Cursor, HoldsSlots, TableSects, Dir.OnTable, Represents;
    var fp := OpenStored(dj, bytes, items, chains);
    var res;
    res, data := fp.Read(fp.fsize);
  }

  /** A file is looked up, opened and read: what was saved under the name is what is loaded. */
  method Load(dj: Dir, path: seq<byte>, ghost bytes: seq<byte>, ghost items: seq<Item>, ghost chains: set<seq<nat>>)
    returns (found: FResult, data: seq<byte>)
    requires Ready(dj, items, chains) && Acceptable(path)
             && Saved(PlaceOf(dj, items, chains), SegmentName(path), bytes)
    modifies dj, dj.lfn, dj.fs, dj.fs.win
    ensures Ready(dj, items, chains) && dj.SameTable() && dj.sclust == old(dj.sclust)
    ensures found == Ok && data == bytes
  {
    hide IsTable, IsNameMap, Lookup, Answers, Acceptable, SegmentName, StoredAt;
    data := [];
    ghost var at :| LeadsTo(items, SegmentName(path), at) && StoredAt(PlaceOf(dj, items, chains), at, bytes);
    found := Lookup1(dj, path, items, chains);
    LookupMiss(items, 0, dj.SearchKey(), SegmentName(path));
    if found == Ok {
      data := ReadStored(dj, bytes, items, chains);
    }
  }

  /** The steps of a run of savings; views are the directory before and after each, and whether the disk is full. */
  datatype View = View(snap: Snap, noFree: bool)

  ghost function ViewOf(dj: Dir, items: seq<Item>): View
    reads dj, dj.fs
  {
    View(SnapOf(dj, items), dj.fs.NoFree())
  }

  ghost predicate SavedStep(v: View, r: Request, made: FResult, ns: seq<nat>, w: View) {
    SaveStep(v.snap, r, made, w.snap) && (made == Ok ==> AllTaken(w.noFree, r.buffs, ns))
  }

  ghost predicate IsRun(views: seq<View>, rs: seq<Request>, mades: seq<FResult>, nss: seq<seq<nat>>) {
    && |views| == |mades| + 1 && |nss| == |mades| <= |rs|
    && forall k :: 0 <= k < |mades| ==> SavedStep(views[k], rs[k], mades[k], nss[k], views[k + 1])
  }

  // All files saved so far are there.
  ghost predicate AllSaved(p: Place, rs: seq<Request>, mades: seq<FResult>, nss: seq<seq<nat>>) {
    |nss| == |mades| <= |rs| && forall k :: 0 <= k < |mades| ==> SavedFile(p, rs[k], mades[k], nss[k])
  }

  lemma RunMore(views: seq<View>, rs: seq<Request>, mades: seq<FResult>, nss: seq<seq<nat>>, made: FResult,
      ns: seq<nat>, w: View)
    requires IsRun(views, rs, mades, nss) && |mades| < |rs|
             && SavedStep(views[|mades|], rs[|mades|], made, ns, w)
    ensures IsRun(views + [w], rs, mades + [made], nss + [ns])
  {
    hide SavedStep;
  }

  lemma SavedMore(p: Place, p': Place, rs: seq<Request>, mades: seq<FResult>, nss: seq<seq<nat>>, made: FResult,
      ns: seq<nat>)
    requires AllSaved(p, rs, mades, nss) && |mades| < |rs| && KeepsFiles(p, p')
             && SavedFile(p', rs[|mades|], made, ns)
    ensures AllSaved(p', rs, mades + [made], nss + [ns])
  {
    hide Saved, KeepsFiles, Taken, SegmentName;
    forall k | 0 <= k < |mades| && mades[k] == Ok && |SegmentName(rs[k].path)| < MAX_LFN
      ensures SavedFile(p', rs[k], mades[k], nss[k])
    {
      assert SavedFile(p, rs[k], mades[k], nss[k]);
      StillSaved(p, p', SegmentName(rs[k].path), Taken(rs[k].buffs, nss[k]));
    }
  }

  /** Any number of new files: each is saved by its own step, and none is lost or changed by those saved after it, nor
      is any file that was there before. */
  method SaveAll(dj: Dir, rs: seq<Request>, ghost items: seq<Item>, ghost chains: set<seq<nat>>)
    returns (mades: seq<FResult>, nss: seq<seq<nat>>, ghost items': seq<Item>, ghost chains': set<seq<nat>>,
      ghost views: seq<View>)
    requires Ready(dj, items, chains) && forall i :: 0 <= i < |rs| ==> Sound(rs[i])
    modifies dj, dj.lfn, dj.fs, dj.fs.win
    ensures Ready(dj, items', chains') && |mades| == |rs| && IsRun(views, rs, mades, nss)
    ensures views[0] == old(ViewOf(dj, items)) && views[|rs|] == ViewOf(dj, items')
    ensures KeepsFiles(old(PlaceOf(dj, items, chains)), PlaceOf(dj, items', chains'))
    ensures AllSaved(PlaceOf(dj, items', chains'), rs, mades, nss)
  {
    mades, nss, items', chains', views := [], [], items, chains, [ViewOf(dj, items)];
    ghost var start := PlaceOf(dj, items, chains);
    hide Ready, KeepsFiles, SavedFile, SaveStep, AllTaken, AllSaved, IsRun;
    AtStart(start, rs, views);
    while |mades| < |rs|
      invariant |mades| <= |rs| && Ready(dj, items', chains') && IsRun(views, rs, mades, nss) && |views| == |mades| + 1
      invariant views[0] == old(ViewOf(dj, items)) && views[|mades|] == ViewOf(dj, items')
      invariant KeepsFiles(start, PlaceOf(dj, items', chains'))
      invariant AllSaved(PlaceOf(dj, items', chains'), rs, mades, nss)
    {
      ghost var p := PlaceOf(dj, items', chains');
      var made, ns;
      made, ns, items', chains' := Save(dj, rs[|mades|], items', chains');
      KeepsFilesOn(start, p, PlaceOf(dj, items', chains'));
      SavedMore(p, PlaceOf(dj, items', chains'), rs, mades, nss, made, ns);
      RunMore(views, rs, mades, nss, made, ns, ViewOf(dj, items'));
      mades, nss, views := mades + [made], nss + [ns], views + [ViewOf(dj, items')];
    }
  }

  lemma AtStart(p: Place, rs: seq<Request>, views: seq<View>)
    requires |views| == 1
    ensures KeepsFiles(p, p) && AllSaved(p, rs, [], []) && IsRun(views, rs, [], [])
  {
  }

  // What a load of a saved file delivers.
  ghost predicate Loaded(r: Request, made: FResult, ns: seq<nat>, data: seq<byte>) {
    made == Ok && |SegmentName(r.path)| < MAX_LFN ==>
      |ns| == |r.buffs| && (forall i :: 0 <= i < |ns| ==> ns[i] <= |r.buffs[i]|) && data == Taken(r.buffs, ns)
  }

  /** Any number of files saved, and then all of them loaded: every file comes back as it was taken, byte by byte. */
  method SaveAndLoad(dj: Dir, rs: seq<Request>, ghost items: seq<Item>, ghost chains: set<seq<nat>>)
    returns (mades: seq<FResult>, nss: seq<seq<nat>>, datas: seq<seq<byte>>, ghost items': seq<Item>,
      ghost chains': set<seq<nat>>, ghost views: seq<View>)
    requires Ready(dj, items, chains) && forall i :: 0 <= i < |rs| ==> Sound(rs[i])
    modifies dj, dj.lfn, dj.fs, dj.fs.win
    ensures Ready(dj, items', chains') && |mades| == |rs| && IsRun(views, rs, mades, nss)
    ensures views[0] == old(ViewOf(dj, items)) && views[|rs|] == ViewOf(dj, items')
    ensures KeepsFiles(old(PlaceOf(dj, items, chains)), PlaceOf(dj, items', chains'))
    ensures |datas| == |rs| && forall k :: 0 <= k < |rs| ==> Loaded(rs[k], mades[k], nss[k], datas[k])
  {
    hide Ready, KeepsFiles, IsRun, Loaded, SavedFile, AllSaved;
    mades, nss, items', chains', views := SaveAll(dj, rs, items, chains);
    ghost var p, v := PlaceOf(dj, items', chains'), ViewOf(dj, items');
    AllSavedLength(p, rs, mades, nss);
    datas := [];
    while |datas| < |rs|
      invariant |datas| <= |rs| && Ready(dj, items', chains') && PlaceOf(dj, items', chains') == p
      invariant ViewOf(dj, items') == v
      invariant forall k :: 0 <= k < |datas| ==> Loaded(rs[k], mades[k], nss[k], datas[k])
    {
      SavedOne(p, rs, mades, nss, |datas|);
      var data := LoadOne(dj, rs[|datas|], mades[|datas|], nss[|datas|], items', chains');
      datas := datas + [data];
    }
  }

  lemma AllSavedLength(p: Place, rs: seq<Request>, mades: seq<FResult>, nss: seq<seq<nat>>)
    requires AllSaved(p, rs, mades, nss)
    ensures |nss| == |mades|
  {
  }

  lemma SavedOne(p: Place, rs: seq<Request>, mades: seq<FResult>, nss: seq<seq<nat>>, k: nat)
    requires AllSaved(p, rs, mades, nss) && k < |mades|
    ensures |nss| == |mades| <= |rs| && SavedFile(p, rs[k], mades[k], nss[k])
  {
  }

  // One of the files loaded, if it could be saved.
  method LoadOne(dj: Dir, r: Request, made: FResult, ghost ns: seq<nat>, ghost items: seq<Item>,
      ghost chains: set<seq<nat>>) returns (data: seq<byte>)
    requires Ready(dj, items, chains) && SavedFile(PlaceOf(dj, items, chains), r, made, ns)
    modifies dj, dj.lfn, dj.fs, dj.fs.win
    ensures Ready(dj, items, chains) && PlaceOf(dj, items, chains) == old(PlaceOf(dj, items, chains))
    ensures ViewOf(dj, items) == old(ViewOf(dj, items)) && Loaded(r, made, ns, data)
  {
    hide Ready, Acceptable, Saved, Taken;
    data := [];
    if made == Ok && |SegmentName(r.path)| < MAX_LFN {
      var found;
      found, data := Load(dj, r.path, Taken(r.buffs, ns), items, chains);
    }
  }
}
