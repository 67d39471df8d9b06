/** Directories from end to end: what is created is listed, under the name it was created with. */
module ListRuns {
  import opened Bytes
  import opened CodePages
  import opened FatFileSystem
  import opened LongNames
  import opened ShortNames
  import opened Entries
  import opened NameMap
  import opened Dirs
  import opened DirRuns
  import opened Listing

  // The name a path of one segment asks for: without the spaces and dots at the end.
  function NameShown(path: seq<byte>): seq<byte> {
    var n := |SegmentName(path)|;
    if n <= |path| then path[..n] else path
  }

  // A long name is shown as it was given, byte by byte.
  lemma LongKept(path: seq<byte>)
    requires Acceptable(path) && |SegmentName(path)| < MAX_LFN
    ensures LongShown(SegmentName(path)) == NameShown(path) != []
  {
    var end, name := PathSegmentEnd(path, 0), SegmentName(path);
    forall k | 0 <= k < |name| ensures ToOem(name[k]) == path[k] != 0 {
      assert name[k] == Unicode(path[..end])[k] == ToUnicode(path[k]);
      assert !EndsSegment(path[k]);
      OemAgain(path[k]);
    }
  }

  // What is shown of an entry's short name.
  lemma DisplaySame(e: Slot, e': Slot)
    requires e[..11] == e'[..11] && e[12] == e'[12]
    ensures DisplayName(e) == DisplayName(e')
  {
    assert e[..8] == e[..11][..8] && e'[..8] == e'[..11][..8];
    assert e[8..11] == e[..11][8..] && e'[8..11] == e'[..11][8..];
    assert e[8] == e[..11][8] && e'[8] == e'[..11][8];
  }

  /** An object is shown under exactly the name it was created with, whichever of its two names carries it. */
  lemma ItemShown(item: Item, path: seq<byte>)
    requires Acceptable(path) && IsItemFor(item, SegmentName(path)) && |SegmentName(path)| < MAX_LFN
    ensures Listed(item) && NameOf(InfoOf(item)) == NameShown(path)
  {
    hide ShortOf, DisplayName, SegmentName;
    if ShortOf(SegmentName(path)).status.noLfn {
      SegmentRoundTrip(path);
      DisplaySame(item.entry, EntryOf(ShortOf(SegmentName(path))));
    } else {
      LongKept(path);
    }
  }

  lemma {:induction false} HasRow(items: seq<Item>, i: nat, item: Item)
    requires item in items && Listed(item)
    ensures exists k :: 0 <= k < |Rows(items, i)| && Rows(items, i)[k].item == item
    decreases |items|
  {
    var behind := Rows(items[1..], i + Size(items[0]));
    if items[0] == item {
      assert Rows(items, i)[0].item == item;
    } else {
      HasRow(items[1..], i + Size(items[0]), item);
      var k :| 0 <= k < |behind| && behind[k].item == item;
      assert Rows(items, i)[if Listed(items[0]) then k + 1 else k].item == item;
    }
  }

  // The object of that name is among the items.
  ghost predicate HasObject(items: seq<Item>, name: seq<Wchar>) {
    exists item :: item in items && IsItemFor(item, name)
  }

  // Creations take no object away.
  ghost predicate KeepsObjects(items: seq<Item>, items': seq<Item>) {
    forall item :: item in items && item.Named? ==> item in items'
  }

  lemma InsertedKeeps(items: seq<Item>, items': seq<Item>, item: Item, at: nat)
    requires InsertedAt(items, items', item, at)
    ensures KeepsObjects(items, items') && item in items'
  {
    var a, gone, b :| Inserted(items, items', a, gone, b, item) && at + 1 == Total(a) + Size(item);
    assert items'[|a|] == item;
    assert forall j :: 0 <= j < |gone| ==> items[|a| + j] == gone[j];
    forall o | o in items && o.Named? ensures o in items' {
      var k :| 0 <= k < |items| && items[k] == o;
      assert k < |a| || |a| + |gone| <= k;
      assert items'[if k < |a| then k else k - |gone| + 1] == o;
    }
  }

  lemma StepKeeps(s: Snap, path: seq<byte>, tim: nat, res: FResult, t: Snap)
    requires Step(s, path, tim, res, t)
    ensures KeepsObjects(s.items, t.items) && (res == Ok ==> Acceptable(path) && HasObject(t.items, SegmentName(path)))
  {
    hide IsItemFor, InsertedAt, Acceptable, SegmentName, Known;
    if Adds(s.items, t.items, SegmentName(path), tim) && t.items != s.items {
      var at :| AddsAt(s.items, t.items, SegmentName(path), tim, at);
      var item :| IsItemFor(item, SegmentName(path)) && InsertedAt(s.items, t.items, item, at);
      InsertedKeeps(s.items, t.items, item, at);
    }
    if res == Ok {
      var at :| AddsAt(s.items, t.items, SegmentName(path), tim, at);
      var item :| IsItemFor(item, SegmentName(path)) && InsertedAt(s.items, t.items, item, at);
      InsertedKeeps(s.items, t.items, item, at);
    }
  }

  /** Every object that a run of creations has made is in the directory at its end. */
  lemma {:induction false} TraceKeeps(trace: seq<Snap>, paths: seq<seq<byte>>, tims: seq<nat>, ress: seq<FResult>,
      k: nat, n: nat)
    requires IsTrace(trace, paths, tims, ress) && k < n <= |ress| && ress[k] == Ok
    ensures Acceptable(paths[k]) && HasObject(trace[n].items, SegmentName(paths[k]))
    decreases n
  {
    hide HasObject, KeepsObjects, Step, Acceptable, SegmentName;
    StepKeeps(trace[n - 1], paths[n - 1], tims[n - 1], ress[n - 1], trace[n]);
    if k == n - 1 {
    } else {
      TraceKeeps(trace, paths, tims, ress, k, n - 1);
      StillThere(trace[n - 1].items, trace[n].items, SegmentName(paths[k]));
    }
  }

  lemma StillThere(items: seq<Item>, items': seq<Item>, name: seq<Wchar>)
    requires KeepsObjects(items, items') && HasObject(items, name)
    ensures HasObject(items', name)
  {
    hide ShortOf;
    var item :| item in items && IsItemFor(item, name);
    assert item in items';
  }

  // The listing of all objects has the name.
  lemma NameListed(items: seq<Item>, path: seq<byte>)
    requires Acceptable(path) && HasObject(items, SegmentName(path)) && |SegmentName(path)| < MAX_LFN
    ensures forall k :: 0 <= k < |Rows(items, 0)| ==> Rows(items, 0)[k].item.Named?
    ensures NameShown(path) in NamesOf(Rows(items, 0))
  {
    hide IsItemFor, InfoOf, NameOf, NameShown, SegmentName, Acceptable, Rows;
    RowsNamed(items, 0);
    var item :| item in items && IsItemFor(item, SegmentName(path));
    ItemShown(item, path);
    HasRow(items, 0, item);
    var k :| 0 <= k < |Rows(items, 0)| && Rows(items, 0)[k].item == item;
    assert NamesOf(Rows(items, 0))[k] == NameShown(path);
  }

  /** Any number of creations and a listing. The names are those of the objects the creations have left; every name
      that was created, and has fewer than 255 characters, is listed byte by byte, unless its entry could be the one
      that ends the table. */
  method CreateAndList(dj: Dir, paths: seq<seq<byte>>, tims: seq<nat>, ghost items: seq<Item>,
      ghost chains: set<seq<nat>>)
    returns (ress: seq<FResult>, names: seq<seq<byte>>, ghost items': seq<Item>, ghost trace: seq<Snap>)
    requires Ready(dj, items, chains) && |tims| == |paths| && forall i :: 0 <= i < |paths| ==> OneSegment(paths[i])
    modifies dj, dj.lfn, dj.fs, dj.fs.win
    ensures |ress| == |paths| && IsTrace(trace, paths, tims, ress)
    ensures trace[0] == old(SnapOf(dj, items)) && trace[|paths|] == SnapOf(dj, items') && IsTable(dj.slots, items')
    ensures dj.slots != [] && names == ToldFrom(items', 0, |dj.slots|)
    ensures !IsObject(dj.slots[|dj.slots| - 1]) ==>
              forall k :: 0 <= k < |paths| && ress[k] == Ok && |SegmentName(paths[k])| < MAX_LFN ==>
                NameShown(paths[k]) in names
  {
    hide IsTrace, Rows, NamesOf, NameShown, ToldFrom, SegmentName, IsObject, HasObject, Acceptable, Known;
    ghost var chains';
    ress, items', chains', trace := CreateAll(dj, paths, tims, items, chains);
    names := List(dj, items');
    HasSlots(dj);
    AllTold(dj.slots, items');
    forall k | 0 <= k < |paths| && ress[k] == Ok && |SegmentName(paths[k])| < MAX_LFN
      ensures NameShown(paths[k]) in NamesOf(Rows(items', 0))
    {
      TraceKeeps(trace, paths, tims, ress, k, |paths|);
      NameListed(items', paths[k]);
    }
  }

  lemma HasSlots(dj: Dir)
    requires dj.Valid()
    ensures dj.slots != []
  {
  }
}
