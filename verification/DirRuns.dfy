/** Whole runs on one directory: any sequence of creations, and looking names up again. */
module DirRuns {
  import opened Bytes
  import opened Volume
  import opened FileData
  import opened FatFileSystem
  import opened LongNames
  import opened ShortNames
  import opened Entries
  import opened NameMap
  import opened TableEdits
  import opened EntryEdits
  import opened DirData
  import opened Dirs

  // The path is one segment.
  ghost predicate OneSegment(path: seq<byte>) {
    PathAt(path, PathSegmentEnd(path, 0)) < 0x20
  }

  ghost predicate Known(items: seq<Item>, name: seq<Wchar>) {
    exists k :: 0 <= k < |items| && Answers(items[k], name)
  }

  /** Every name that was found is still found, at the same entry. */
  ghost predicate KeepsNames(items: seq<Item>, items': seq<Item>) {
    forall key: Key, name: seq<Wchar> {:trigger Lookup(items', 0, key, name)} ::
      IsKeyOf(key, name) && Lookup(items, 0, key, name).Hit? ==>
        Lookup(items', 0, key, name) == Lookup(items, 0, key, name)
  }

  ghost predicate Ready(dj: Dir, items: seq<Item>, chains: set<seq<nat>>)
    reads dj, dj.fs, dj.fs.win
  {
    dj.Valid() && dj.fs.Owns(chains, dj.chain) && IsTable(dj.slots, items) && IsNameMap(items)
    && dj.lfn.Length == MAX_LFN + 1 && dj.lfn as object != dj.fs.win as object
  }

  /** The table of a fresh root directory: zeros, and no names. */
  lemma NewRoot(n: nat)
    ensures IsTable(ZeroSlots(n), []) && IsNameMap([])
  {
  }

  function Dots(n: nat): (r: seq<byte>)
    requires n <= 11
    ensures |r| == 11
  {
    seq(11, i => if i < n then 0x2E else 0x20)
  }

  /** The table f_mkdir writes: the two dot entries, and zeros behind them. */
  lemma NewDirectory(dot: Slot, dotdot: Slot, n: nat)
    requires dot[..11] == Dots(1) && dotdot[..11] == Dots(2) && dot[11] == dotdot[11] == 0x10
    ensures IsTable([dot, dotdot] + ZeroSlots(n), [Item.Named([], dot), Item.Named([], dotdot)])
    ensures IsNameMap([Item.Named([], dot), Item.Named([], dotdot)])
  {
    var slots, items := [dot, dotdot] + ZeroSlots(n), [Item.Named([], dot), Item.Named([], dotdot)];
    assert dot[0] == dot[..11][0] && dotdot[0] == dotdot[..11][0] && dotdot[1] == dotdot[..11][1]
           && dot[1] == dot[..11][1];
    assert slots[..1] == [dot] && slots[1..][..1] == [dotdot] && slots[1..][1..] == ZeroSlots(n)
           && items[1..][1..] == [];
    assert IsTable(slots[1..], items[1..]);
  }

  /** follow_path on one segment: make the name, look it up. */
  method Lookup1(dj: Dir, path: seq<byte>, ghost items: seq<Item>, ghost chains: set<seq<nat>>) returns (res: FResult)
    requires Ready(dj, items, chains)
    modifies dj, dj.lfn, dj.fs, dj.fs.win
    ensures Ready(dj, items, chains) && dj.SameTable() && dj.sclust == old(dj.sclust)
    ensures res == if !Acceptable(path) then InvalidName else if Known(items, SegmentName(path)) then Ok else NoFile
    ensures res != InvalidName ==>
              dj.Named() && dj.useLfn && InBuffer(dj.lfn[..], SegmentName(path)) && dj.fn == ShortOf(SegmentName(path))
    ensures res != InvalidName ==> IsKeyOf(dj.SearchKey(), SegmentName(path))
    ensures res == Ok ==> dj.Here() && Lookup(items, 0, dj.SearchKey(), SegmentName(path)) == Hit(dj.index, dj.lfnIdx)
  {
    hide Lookup, Find, Answers, IsTable;
    dj.useLfn := true;
    var short, last, next;
    res, short, last, next := CreateName(path, dj.lfn);
    if res != Ok {
      return;
    }
    dj.fn := short;
    ghost var name := SegmentName(path);
    SegmentIsName(path);
    FindIsLookup(dj.slots, 0, items, dj.SearchKey(), name, Look(NO_ORDER, NO_ORDER, dj.lfnIdx));
    LookupMiss(items, 0, dj.SearchKey(), name);
    res := dj.DirFind();
  }

  // The new name is not there yet, long or short.
  lemma NewName(fn: ShortName, items: seq<Item>, name: seq<Wchar>, item: Item)
    requires |fn.sfn| == 11 && fn.status == ShortOf(name).status && !Known(items, name)
    requires if fn.status.loss then NoSuchShort(items, fn.sfn) else fn.sfn == ShortOf(name).sfn
    requires item.Named? && item.entry[..11] == fn.sfn
    ensures forall k :: 0 <= k < |items| ==> !Answers(items[k], name) && !SameSfn(item, items[k])
  {
  }

  // What registering a new name does to the directory as a map; the new entry is slot number at.
  lemma Registered(items: seq<Item>, items': seq<Item>, item: Item, at: nat, name: seq<Wchar>)
    requires IsNameMap(items) && InsertedAt(items, items', item, at) && IsItemFor(item, name) && IsName(name)
    requires forall k :: 0 <= k < |items| ==> !Answers(items[k], name) && !SameSfn(item, items[k])
    ensures IsNameMap(items') && KeepsNames(items, items') && (Known(items', name) <==> |name| < MAX_LFN)
    ensures forall key {:trigger Lookup(items', 0, key, name)} :: IsKeyOf(key, name) && |name| < MAX_LFN ==>
              Lookup(items', 0, key, name).Hit? && Lookup(items', 0, key, name).index == at
  {
    hide Inserted;
    var a, gone, b :| Inserted(items, items', a, gone, b, item) && at + 1 == Total(a) + Size(item);
    RegisterKeepsMap(items, items', a, gone, b, item, name);
    forall key: Key, other: seq<Wchar> | IsKeyOf(key, other) && Lookup(items, 0, key, other).Hit?
      ensures Lookup(items', 0, key, other) == Lookup(items, 0, key, other)
    {
      RegisterKeepsOthers(items, items', a, gone, b, item, name, key, other);
    }
    forall key | IsKeyOf(key, name)
      ensures |name| < MAX_LFN ==>
                Lookup(items', 0, key, name) == Hit(Total(a) + Size(item) - 1, if item.lfn != [] then Total(a)
                  else NO_LFN)
    {
      LookupMiss(items, 0, key, name);
      RegisterFound(items, items', a, gone, b, item, name, key);
    }
    NewIsKnown(items, items', a, gone, b, item, name);
  }

  lemma NewIsKnown(items: seq<Item>, items': seq<Item>, a: seq<Item>, gone: seq<Item>, b: seq<Item>, item: Item,
      name: seq<Wchar>)
    requires Inserted(items, items', a, gone, b, item) && IsItemFor(item, name) && IsName(name)
    requires forall k :: 0 <= k < |items| ==> !Answers(items[k], name)
    ensures Known(items', name) <==> |name| < MAX_LFN
  {
    assert items'[|a|] == item;
    if |name| == MAX_LFN {
      LongLoses(name);
      forall k | 0 <= k < |items'| ensures !Answers(items'[k], name) {
        if k < |a| {
          assert items'[k] == items[k];
        } else if k > |a| {
          assert items'[k] == items[k - 1 + |gone|];
        }
      }
    } else {
      assert SameName(name, name);
      assert Answers(items'[|a|], name);
    }
  }

  /** The directory seen from outside: its slots, its items, and whether the table cannot get longer. */
  datatype Snap = Snap(slots: seq<Slot>, items: seq<Item>, full: bool)

  ghost function SnapOf(dj: Dir, items: seq<Item>): Snap
    reads dj, dj.fs
  {
    Snap(dj.slots, items, dj.IsFull())
  }

  // An empty file of the name has been put into the table, created at time tim.
  ghost predicate Adds(items: seq<Item>, items': seq<Item>, name: seq<Wchar>, tim: nat) {
    exists at :: AddsAt(items, items', name, tim, at)
  }

  // The same, with its entry in slot number at.
  ghost predicate AddsAt(items: seq<Item>, items': seq<Item>, name: seq<Wchar>, tim: nat, at: nat) {
    exists item :: IsItemFor(item, name) && IsFresh(item.entry, tim) && InsertedAt(items, items', item, at)
  }

  /** One creation, seen from outside. It fails only on a path that is no name, on a name that is there, where there is
      no room for the object and the table cannot get longer, or where all numbered names are taken. */
  ghost predicate Step(s: Snap, path: seq<byte>, tim: nat, res: FResult, t: Snap) {
    && (s.full ==> t.full)
    && if !Acceptable(path) then res == InvalidName && t == s
       else if Known(s.items, SegmentName(path)) then res == Exist && t == s
       else if res == Ok then Adds(s.items, t.items, SegmentName(path), tim)
       else
         (res == NoFile || res == Denied) && t.items == s.items && s.slots <= t.slots
         && NoPlaceIn(t.slots, t.items, t.full, SegmentName(path))
  }

  // The cursor is on the entry of an empty file, created at time tim.
  ghost predicate IsNewFile(dj: Dir, items: seq<Item>, tim: nat)
    reads dj
  {
    dj.index < |dj.slots| && IsFresh(dj.slots[dj.index], tim) && IsObjectAt(items, dj.index)
  }

  // The new entry is completed: the item just inserted, with its attribute and its creation time.
  method Complete(dj: Dir, tim: nat, ghost items: seq<Item>, ghost mid: seq<Item>, ghost name: seq<Wchar>)
    returns (ghost items': seq<Item>)
    requires dj.Valid() && dj.Named() && dj.Here() && dj.fs.winsect == dj.sect && IsTable(dj.slots, mid)
    requires IsNameMap(items) && !Known(items, name) && IsName(name) && dj.Chosen(items, name)
             && InsertedAt(items, mid, dj.NewItem(name), dj.index)
    modifies dj`slots, dj.fs`wflag, dj.fs`logical, dj.fs.win
    ensures dj.Valid() && IsTable(dj.slots, items') && IsNameMap(items') && KeepsNames(items, items')
    ensures OnlyChanged(dj.fs.g, old(dj.fs.logical), dj.fs.logical, dj.sects) && |dj.slots| == old(|dj.slots|)
    ensures IsNewFile(dj, items', tim) && AddsAt(items, items', name, tim, dj.index)
            && (Known(items', name) <==> |name| < MAX_LFN)
    ensures forall key {:trigger Lookup(items', 0, key, name)} :: IsKeyOf(key, name) && |name| < MAX_LFN ==>
              Lookup(items', 0, key, name).Hit? && Lookup(items', 0, key, name).index == dj.index
  {
    hide dj.Valid, IsTable, IsNameMap, Lookup, Answers, Fresh, IsFresh;
    ghost var item := dj.NewItem(name);
    FreshEntry(dj.fn, tim);
    ghost var item' := Item.Named(item.lfn, Fresh(item.entry, tim));
    items' := EditNew(dj.slots, items, mid, item, dj.index, item'.entry);
    NewIsObject(items, items', item', dj.index);
    NewName(dj.fn, items, name, item');
    Registered(items, items', item', dj.index, name);
    dj.StampNew(tim);
  }

  lemma NewIsObject(items: seq<Item>, items': seq<Item>, item: Item, at: nat)
    requires InsertedAt(items, items', item, at) && item.Named?
    ensures IsObjectAt(items', at)
  {
    var a, gone, b :| Inserted(items, items', a, gone, b, item) && at + 1 == Total(a) + Size(item);
    assert SplitAt(items', at, a, item, b);
  }

  // The arm of f_open for a name that is not there: dir_register, and the rest of the entry.
  method Insert(dj: Dir, tim: nat, ghost name: seq<Wchar>, ghost items: seq<Item>, ghost chains: set<seq<nat>>)
    returns (res: FResult, ghost items': seq<Item>, ghost chains': set<seq<nat>>)
    requires Ready(dj, items, chains) && dj.Named() && dj.useLfn && dj.fn == ShortOf(name)
    requires InBuffer(dj.lfn[..], name) && IsName(name) && !Known(items, name)
    modifies dj, dj.fs, dj.fs.win
    ensures Ready(dj, items', chains') && KeepsNames(items, items')
    ensures chains' - {dj.chain} == chains - {old(dj.chain)}
            && OnlyChanged(dj.fs.g, old(dj.fs.logical), dj.fs.logical, dj.sects)
    ensures old(dj.sects) <= dj.sects && (old(dj.IsFull()) ==> dj.IsFull())
    ensures res == Ok ==> AddsAt(items, items', name, tim, dj.index) && (Known(items', name) <==> |name| < MAX_LFN)
    ensures res == Ok ==> dj.Here() && dj.fs.winsect == dj.sect && IsNewFile(dj, items', tim)
    ensures res != Ok ==> (res == NoFile || res == Denied) && items' == items && old(dj.slots) <= dj.slots
    ensures res != Ok ==> NoPlaceIn(dj.slots, items, dj.IsFull(), name)
    ensures res == Ok ==> forall key {:trigger Lookup(items', 0, key, name)} ::
              IsKeyOf(key, name) && |name| < MAX_LFN ==>
                Lookup(items', 0, key, name).Hit? && Lookup(items', 0, key, name).index == dj.index
  {
    hide Dir.Valid, IsTable, IsNameMap, Lookup, Answers, IsFresh, IsKeyOf, AddsAt, IsNewFile, Known, NoPlaceIn;
    res, items', chains' := dj.DirRegister(name, items, chains);
    if res == Ok {
      ghost var d := dj.fs.logical;
      items' := Complete(dj, tim, items, items', name);
      ChangedOn(dj.fs.g, old(dj.fs.logical), d, dj.fs.logical, dj.sects, dj.sects);
    }
  }

  /** f_open with FA_CREATE_NEW, on a path of one segment: the lookup, and the new entry. */
  method Create(dj: Dir, path: seq<byte>, tim: nat, ghost items: seq<Item>, ghost chains: set<seq<nat>>)
    returns (res: FResult, ghost items': seq<Item>, ghost chains': set<seq<nat>>)
    requires Ready(dj, items, chains) && OneSegment(path)
    modifies dj, dj.lfn, dj.fs, dj.fs.win
    ensures Ready(dj, items', chains') && KeepsNames(items, items')
    ensures chains' - {dj.chain} == chains - {old(dj.chain)}
            && OnlyChanged(dj.fs.g, old(dj.fs.logical), dj.fs.logical, dj.sects)
    ensures old(dj.sects) <= dj.sects
    ensures Step(old(SnapOf(dj, items)), path, tim, res, SnapOf(dj, items'))
    ensures res == Ok ==> dj.Here() && dj.fs.winsect == dj.sect && IsNewFile(dj, items', tim)
    ensures res == Ok ==> AddsAt(items, items', SegmentName(path), tim, dj.index)
    ensures res == Ok ==> (Known(items', SegmentName(path)) <==> |SegmentName(path)| < MAX_LFN)
    ensures res == Ok ==> forall key {:trigger Lookup(items', 0, key, SegmentName(path))} ::
              IsKeyOf(key, SegmentName(path)) && |SegmentName(path)| < MAX_LFN ==>
                Lookup(items', 0, key, SegmentName(path)).Hit?
                  && Lookup(items', 0, key, SegmentName(path)).index == dj.index
  {
    items', chains' := items, chains;
    res := Lookup1(dj, path, items, chains);
    if res == Ok {
      return Exist, items', chains';
    }
    if res != NoFile {
      return;
    }
    ghost var name := SegmentName(path);
    SegmentIsName(path);
    res, items', chains' := Insert(dj, tim, name, items, chains);
  }

  // A path of 255 letters a.
  function Longest(): (r: seq<byte>)
    ensures |r| == MAX_LFN && forall k :: 0 <= k < MAX_LFN ==> r[k] == 0x61
  {
    seq(MAX_LFN, _ => 0x61)
  }

  lemma LongestName()
    ensures Acceptable(Longest()) && OneSegment(Longest()) && |SegmentName(Longest())| == MAX_LFN
  {
    var path := Longest();
    assert PathSegmentEnd(path, 0) == MAX_LFN;
    assert path[..MAX_LFN] == path;
  }

  /** A name of 255 characters is a good path and gets an entry, but no lookup finds it. */
  lemma LongestIsLost(items: seq<Item>, items': seq<Item>, item: Item, at: nat)
    requires InsertedAt(items, items', item, at) && IsItemFor(item, SegmentName(Longest()))
             && !Known(items, SegmentName(Longest()))
    ensures Acceptable(Longest()) && OneSegment(Longest()) && !Known(items', SegmentName(Longest()))
    ensures forall key {:trigger Lookup(items', 0, key, SegmentName(Longest()))} ::
              IsKeyOf(key, SegmentName(Longest())) ==> Lookup(items', 0, key, SegmentName(Longest())) == Miss
  {
    LongestName();
    SegmentIsName(Longest());
    var name := SegmentName(Longest());
    var a, gone, b :| Inserted(items, items', a, gone, b, item) && at + 1 == Total(a) + Size(item);
    NewIsKnown(items, items', a, gone, b, item, name);
    forall key | IsKeyOf(key, name) ensures Lookup(items', 0, key, name) == Miss {
      LookupMiss(items', 0, key, name);
    }
  }

  /** A creation, and a lookup of the same path: a created name is found, at the entry it was created at. */
  method CreateAndFind(dj: Dir, path: seq<byte>, tim: nat, ghost items: seq<Item>, ghost chains: set<seq<nat>>)
    returns (made: FResult, found: FResult, at: nat, ghost items': seq<Item>, ghost chains': set<seq<nat>>)
    requires Ready(dj, items, chains) && OneSegment(path)
    modifies dj, dj.lfn, dj.fs, dj.fs.win
    ensures Ready(dj, items', chains') && Step(old(SnapOf(dj, items)), path, tim, made, SnapOf(dj, items'))
    ensures found == if !Acceptable(path) then InvalidName else if Known(items', SegmentName(path)) then Ok else NoFile
    ensures made == Ok ==> (found == Ok <==> |SegmentName(path)| < MAX_LFN)
    ensures made == Ok && found == Ok ==> dj.index == at
  {
    made, items', chains' := Create(dj, path, tim, items, chains);
    at := dj.index;
    found := Lookup1(dj, path, items', chains');
  }

  // What the result of a creation promises of the directory from then on.
  ghost predicate Settled(items: seq<Item>, path: seq<byte>, res: FResult) {
    (res == Ok || res == Exist) ==>
      Acceptable(path) && (|SegmentName(path)| < MAX_LFN ==> Known(items, SegmentName(path)))
  }

  ghost predicate AllSettled(items: seq<Item>, paths: seq<seq<byte>>, ress: seq<FResult>) {
    |ress| <= |paths| && forall i :: 0 <= i < |ress| ==> Settled(items, paths[i], ress[i])
  }

  lemma OneMore(items: seq<Item>, items': seq<Item>, paths: seq<seq<byte>>, ress: seq<FResult>, res: FResult)
    requires AllSettled(items, paths, ress) && KeepsNames(items, items') && |ress| < |paths|
             && Settled(items', paths[|ress|], res)
    ensures AllSettled(items', paths, ress + [res])
  {
    forall i | 0 <= i < |ress| && (ress[i] == Ok || ress[i] == Exist) && |SegmentName(paths[i])| < MAX_LFN
      ensures Known(items', SegmentName(paths[i]))
    {
      assert Settled(items, paths[i], ress[i]);
      SegmentIsName(paths[i]);
      StillKnown(items, items', SegmentName(paths[i]));
    }
  }

  lemma KeepsOn(s: seq<Item>, t: seq<Item>, u: seq<Item>)
    requires KeepsNames(s, t) && KeepsNames(t, u)
    ensures KeepsNames(s, u)
  {
    forall key: Key, name: seq<Wchar> | IsKeyOf(key, name) && Lookup(s, 0, key, name).Hit?
      ensures Lookup(u, 0, key, name) == Lookup(s, 0, key, name)
    {
      assert Lookup(t, 0, key, name) == Lookup(s, 0, key, name);
    }
  }

  lemma ChangedOn(g: Geometry, d: Disk, e: Disk, f: Disk, s: seq<nat>, t: seq<nat>)
    requires OnlyChanged(g, d, e, s) && OnlyChanged(g, e, f, t) && s <= t
    ensures OnlyChanged(g, d, f, t)
  {
    assert forall k :: k in s ==> k in t;
  }

  /** The results are those of one creation after the other. */
  ghost predicate IsTrace(trace: seq<Snap>, paths: seq<seq<byte>>, tims: seq<nat>, ress: seq<FResult>) {
    && |trace| == |ress| + 1 && |ress| <= |paths| == |tims|
    && forall k :: 0 <= k < |ress| ==> Step(trace[k], paths[k], tims[k], ress[k], trace[k + 1])
  }

  lemma TraceMore(trace: seq<Snap>, paths: seq<seq<byte>>, tims: seq<nat>, ress: seq<FResult>, res: FResult, t: Snap)
    requires IsTrace(trace, paths, tims, ress) && |ress| < |paths|
             && Step(trace[|ress|], paths[|ress|], tims[|ress|], res, t)
    ensures IsTrace(trace + [t], paths, tims, ress + [res])
  {
    hide Step;
  }

  /** Any number of creations, whatever they return: the directory stays a map from names to entries, what was found
      stays where it was, and what was created is found. */
  method CreateAll(dj: Dir, paths: seq<seq<byte>>, tims: seq<nat>, ghost items: seq<Item>,
      ghost chains: set<seq<nat>>)
    returns (ress: seq<FResult>, ghost items': seq<Item>, ghost chains': set<seq<nat>>, ghost trace: seq<Snap>)
    requires Ready(dj, items, chains) && |tims| == |paths| && forall i :: 0 <= i < |paths| ==> OneSegment(paths[i])
    modifies dj, dj.lfn, dj.fs, dj.fs.win
    ensures Ready(dj, items', chains') && KeepsNames(items, items') && |ress| == |paths|
            && AllSettled(items', paths, ress)
    ensures chains' - {dj.chain} == chains - {old(dj.chain)}
            && OnlyChanged(dj.fs.g, old(dj.fs.logical), dj.fs.logical, dj.sects)
    ensures IsTrace(trace, paths, tims, ress)
    ensures trace[0] == old(SnapOf(dj, items)) && trace[|paths|] == SnapOf(dj, items')
  {
    ress, items', chains', trace := [], items, chains, [SnapOf(dj, items)];
    assert KeepsNames(items, items') && AllSettled(items', paths, ress);
    assert OnlyChanged(dj.fs.g, dj.fs.logical, dj.fs.logical, dj.sects);
    hide Ready, Step, KeepsNames, AllSettled, OnlyChanged;
    while |ress| < |paths|
      invariant |ress| <= |paths| && Ready(dj, items', chains') && KeepsNames(items, items')
                && AllSettled(items', paths, ress)
      invariant IsTrace(trace, paths, tims, ress)
      invariant trace[0] == old(SnapOf(dj, items)) && trace[|ress|] == SnapOf(dj, items')
      invariant chains' - {dj.chain} == chains - {old(dj.chain)}
                && OnlyChanged(dj.fs.g, old(dj.fs.logical), dj.fs.logical, dj.sects)
    {
      ghost var before, d, sects := items', dj.fs.logical, dj.sects;
      var res;
      res, items', chains' := Create(dj, paths[|ress|], tims[|ress|], items', chains');
      KeepsOn(items, before, items');
      ChangedOn(dj.fs.g, old(dj.fs.logical), d, dj.fs.logical, sects, dj.sects);
      OneMore(before, items', paths, ress, res);
      TraceMore(trace, paths, tims, ress, res, SnapOf(dj, items'));
      ress := ress + [res];
      trace := trace + [SnapOf(dj, items')];
    }
  }

  // A name stays known where names are kept.
  lemma StillKnown(items: seq<Item>, items': seq<Item>, name: seq<Wchar>)
    requires KeepsNames(items, items') && IsName(name) && Known(items, name)
    ensures Known(items', name)
  {
    var key := Key(true, name + seq(MAX_LFN + 1 - |name|, _ => 0), ShortOf(name).sfn, ShortOf(name).status.loss);
    LookupMiss(items, 0, key, name);
    LookupMiss(items', 0, key, name);
    assert Lookup(items', 0, key, name) == Lookup(items, 0, key, name);
  }
}
