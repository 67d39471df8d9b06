/** Reading a directory: dir_read and f_readdir one object at a time, and the loop that lists them all. */
module Listing {
  import opened Bytes
  import opened CodePages
  import opened FatFileSystem
  import opened LongNames
  import opened ShortNames
  import opened Entries
  import opened NameMap
  import opened Dirs

  // The objects dir_read stops at: all but the dot entries.
  predicate Listed(item: Item) {
    item.Named? && item.entry[0] != 0x2E
  }

  /** An object of the table, and the number of its entry's slot. */
  datatype Row = Row(at: nat, item: Item)

  /** The objects of a table, in order; i is the number of the first slot. */
  ghost function Rows(items: seq<Item>, i: nat): seq<Row> {
    if items == [] then []
    else
      var n := Size(items[0]);
      (if Listed(items[0]) then [Row(i + n - 1, items[0])] else []) + Rows(items[1..], i + n)
  }

  ghost predicate FirstIs(rows: seq<Row>, row: Row, behind: seq<Row>) {
    rows == [row] + behind
  }

  // Behind place from, the buffer holds the name, with its terminator.
  ghost predicate HoldsTail(buf: seq<Wchar>, name: seq<Wchar>, from: nat) {
    && |name| <= MAX_LFN && |buf| == MAX_LFN + 1 && buf[|name|] == 0
    && forall i :: from <= i < |name| ==> buf[i] == name[i]
  }

  // Slot i belongs to the long name of an item that starts at slot p, or is its entry, and what lies in front of
  // slot i has been picked up.
  ghost predicate InRun(buf: seq<Wchar>, p: nat, i: nat, item: Item, look: Look) {
    && item.Named? && item.lfn != [] && p < i < p + Size(item)
    && look.ord as nat == p + Size(item) - 1 - i && look.sum == SumOf(item.entry, 11) && look.lfnIdx == p
    && HoldsTail(buf, item.lfn, 13 * look.ord as nat)
  }

  // dir_read at slot i; the item it is on starts at slot p, and rest are this one and those behind it.
  ghost predicate Reading(slots: seq<Slot>, buf: seq<Wchar>, p: nat, i: nat, rest: seq<Item>, look: Look) {
    && p <= i <= |slots| && IsTable(slots[p..], rest)
    && if i == p then Idle(look) else rest != [] && InRun(buf, p, i, rest[0], look)
  }

  // What slot i of an item that starts at slot p is.
  lemma ItemSlot(slots: seq<Slot>, p: nat, i: nat, rest: seq<Item>)
    requires p <= |slots| && IsTable(slots[p..], rest) && rest != [] && p <= i < p + Size(rest[0])
    ensures p + Size(rest[0]) <= |slots| && IsTable(slots[p + Size(rest[0])..], rest[1..])
    ensures i + 1 < p + Size(rest[0]) ==>
              rest[0].Named? && IsName(rest[0].lfn) && Size(rest[0]) - 1 == Segments(rest[0].lfn) <= 20
              && IsSegment(slots[i], rest[0].lfn, p + Size(rest[0]) - 1 - i, SumOf(rest[0].entry, 11))
    ensures i + 1 == p + Size(rest[0]) ==>
              IsItem([slots[i]], if rest[0].Named? then Item.Named([], rest[0].entry) else rest[0])
  {
    var n := Size(rest[0]);
    var run := slots[p..][..n];
    assert slots[p..][n..] == slots[p + n..];
    assert run[i - p] == slots[i];
    if i + 1 < p + n {
      assert run[..n - 1][i - p] == slots[i];
    }
  }

  // dir[DIR_Attr] & AM_MASK and the first byte: no data, in the eyes of dir_read.
  predicate PassedOver(slot: Slot) {
    IsSkipped(slot) || slot[0] == 0x2E
  }

  // A slot of a long name is neither the end nor passed over.
  lemma SegmentPlain(slot: Slot, name: seq<Wchar>, ord: nat, sum: byte)
    requires 1 <= ord <= 20 && IsSegment(slot, name, ord, sum)
    ensures slot[0] != 0 && !PassedOver(slot) && IsLfnSlot(slot) && OrderOf(slot[0]) == ord
  {
  }

  // What slot i is to dir_read: zero behind the last item; a segment of the item's name in front of its last slot;
  // and its last slot is passed over, or is the entry of an object.
  lemma SlotKind(slots: seq<Slot>, buf: seq<Wchar>, p: nat, i: nat, rest: seq<Item>, look: Look)
    requires Reading(slots, buf, p, i, rest, look) && i < |slots|
    ensures rest == [] <==> slots[i][0] == 0
    ensures rest != [] ==> i < p + Size(rest[0]) <= |slots| && IsTable(slots[p + Size(rest[0])..], rest[1..])
    ensures rest != [] && i + 1 < p + Size(rest[0]) ==>
              !PassedOver(slots[i]) && IsLfnSlot(slots[i]) && rest[0].Named? && IsName(rest[0].lfn)
              && Size(rest[0]) - 1 == Segments(rest[0].lfn) <= 20
              && IsSegment(slots[i], rest[0].lfn, p + Size(rest[0]) - 1 - i, SumOf(rest[0].entry, 11))
    ensures rest != [] && i + 1 == p + Size(rest[0]) ==> (PassedOver(slots[i]) <==> !Listed(rest[0]))
    ensures rest != [] && i + 1 == p + Size(rest[0]) && Listed(rest[0]) ==>
              !IsLfnSlot(slots[i]) && slots[i] == rest[0].entry && (rest[0].lfn != [] ==> IsName(rest[0].lfn))
  {
    if rest == [] {
      assert slots[p..][0] == slots[p];
    } else {
      ItemSlot(slots, p, i, rest);
      if i + 1 < p + Size(rest[0]) {
        SegmentPlain(slots[i], rest[0].lfn, p + Size(rest[0]) - 1 - i, SumOf(rest[0].entry, 11));
      }
    }
  }

  // At the end of the table no object is left.
  lemma AtEnd(slots: seq<Slot>, buf: seq<Wchar>, p: nat, i: nat, rest: seq<Item>, look: Look)
    requires Reading(slots, buf, p, i, rest, look) && (i < |slots| ==> slots[i][0] == 0)
    ensures rest == []
  {
    if i < |slots| {
      SlotKind(slots, buf, p, i, rest, look);
    } else if rest != [] {
      ItemSlot(slots, p, p, rest);
    }
  }

  // A slot that is passed over ends an item that is not listed.
  lemma AtPassed(slots: seq<Slot>, buf: seq<Wchar>, p: nat, i: nat, rest: seq<Item>, look: Look)
    requires Reading(slots, buf, p, i, rest, look) && i < |slots| && slots[i][0] != 0 && PassedOver(slots[i])
    ensures rest != [] && Reading(slots, buf, i + 1, i + 1, rest[1..], look.(ord := NO_ORDER))
    ensures Rows(rest, p) == Rows(rest[1..], i + 1)
  {
    SlotKind(slots, buf, p, i, rest, look);
  }

  // The state at a segment, which starts anew at the last one of a name.
  function StartAt(slot: Slot, i: nat, look: Look): Look {
    if IsLast(slot[0]) then Look(OrderOf(slot[0]), slot[13], i) else look
  }

  // The segment is the one that comes next, and there is room for it in the buffer.
  ghost predicate Taken(slot: Slot, look: Look)
    requires 1 <= OrderOf(slot[0])
  {
    OrderOf(slot[0]) == look.ord && look.sum == slot[13]
      && (OrderOf(slot[0]) - 1) as nat * 13 + EndOf(slot, 0) <= MAX_LFN
  }

  // The long-name arm of dir_read.
  method ReadSegment(dj: Dir, slot: Slot, ord0: byte, sum0: byte) returns (ord: byte, sum: byte)
    requires dj.lfn.Length == MAX_LFN + 1 && 1 <= OrderOf(slot[0]) <= 20
    modifies dj`lfnIdx, dj.lfn
    ensures var look := StartAt(slot, dj.index, Look(ord0, sum0, old(dj.lfnIdx)));
            && sum == look.sum && dj.lfnIdx == look.lfnIdx
            && ord == (if Taken(slot, look) then look.ord - 1 else NO_ORDER)
            && (Taken(slot, look) ==>
                 dj.lfn[..] == Picked(old(dj.lfn[..]), slot, (OrderOf(slot[0]) - 1) as nat * 13, IsLast(slot[0])))
  {
    ord, sum := ord0, sum0;
    var c := slot[0];
    if IsLast(c) {
      sum := slot[13];
      c := OrderOf(c);
      ord := c;
      dj.lfnIdx := dj.index;
    }
    var ok := c == ord && sum == slot[13];
    if ok {
      ok := PickLfn(dj.lfn, slot);
    }
    ord := if ok then ord - 1 else NO_ORDER;
  }

  // The buffer behind a segment that has been picked up.
  lemma TailPicked(buf: seq<Wchar>, slot: Slot, name: seq<Wchar>, o: nat, s: byte)
    requires |buf| == MAX_LFN + 1 && IsName(name) && 1 <= o <= Segments(name) <= 20 && IsSegment(slot, name, o, s)
    requires o < Segments(name) ==> HoldsTail(buf, name, 13 * o)
    ensures OrderOf(slot[0]) as nat == o && (IsLast(slot[0]) <==> o == Segments(name)) && slot[13] == s
    ensures 13 * (o - 1) + EndOf(slot, 0) <= MAX_LFN
    ensures HoldsTail(Picked(buf, slot, 13 * (o - 1), IsLast(slot[0])), name, 13 * (o - 1))
  {
    OrderByte(slot, name, o, s);
    SegmentEnd(slot, name, o, s);
    PickedSegment(buf, slot, name, o, s);
  }

  /** The segments of a stored name are taken one after the other. */
  lemma SegmentTaken(slots: seq<Slot>, buf: seq<Wchar>, p: nat, i: nat, rest: seq<Item>, look: Look)
    requires Reading(slots, buf, p, i, rest, look) && i < |slots| && slots[i][0] != 0 && !PassedOver(slots[i])
             && IsLfnSlot(slots[i])
    requires |buf| == MAX_LFN + 1
    ensures rest != [] && 1 <= OrderOf(slots[i][0]) <= 20
    ensures var slot, look' := slots[i], StartAt(slots[i], i, look);
            && Taken(slot, look')
            && Reading(slots, Picked(buf, slot, (OrderOf(slot[0]) - 1) as nat * 13, IsLast(slot[0])), p, i + 1, rest,
                       look'.(ord := look'.ord - 1))
  {
    SlotKind(slots, buf, p, i, rest, look);
    TailPicked(buf, slots[i], rest[0].lfn, p + Size(rest[0]) - 1 - i, SumOf(rest[0].entry, 11));
    assert (OrderOf(slots[i][0]) - 1) as nat * 13 == 13 * (p + Size(rest[0]) - 1 - i - 1);
    hide IsTable, Picked, IsSegment, SumOf, EndOf, HoldsTail, PassedOver, IsLfnSlot, OrderOf, IsLast, Segments;
  }

  // The entry of an object, and what the state says of its long name.
  lemma AtEntry(slots: seq<Slot>, buf: seq<Wchar>, p: nat, i: nat, rest: seq<Item>, look: Look)
    requires Reading(slots, buf, p, i, rest, look) && i < |slots| && slots[i][0] != 0 && !PassedOver(slots[i])
             && !IsLfnSlot(slots[i])
    requires |buf| == MAX_LFN + 1
    ensures rest != [] && Listed(rest[0]) && slots[i] == rest[0].entry && IsTable(slots[i + 1..], rest[1..])
    ensures FirstIs(Rows(rest, p), Row(i, rest[0]), Rows(rest[1..], i + 1))
    ensures if rest[0].lfn == [] then look.ord != 0
            else look.ord == 0 && look.sum == SumOf(slots[i], 11) && look.lfnIdx < i
                 && IsName(rest[0].lfn) && InBuffer(buf, rest[0].lfn)
  {
    SlotKind(slots, buf, p, i, rest, look);
    if rest[0].lfn != [] {
      assert buf[..|rest[0].lfn|] == rest[0].lfn;
    }
  }

  // The current slot is in the window.
  ghost predicate InWindow(dj: Dir, slot: Slot)
    reads dj, dj.fs, dj.fs.win
  {
    && dj.Here() && dj.index < |dj.slots| && slot == dj.slots[dj.index]
    && dj.fs.winsect == dj.sect != 0 && dj.ofs + 32 <= dj.fs.win.Length && dj.fs.win[dj.ofs..dj.ofs + 32] == slot
  }

  // The cursor is on the entry of the object, and the working buffer has its long name, if it has one.
  ghost predicate AtRow(dj: Dir, item: Item)
    reads dj, dj.lfn, dj.fs, dj.fs.win
  {
    && Listed(item) && InWindow(dj, item.entry)
    && (dj.lfnIdx == NO_LFN <==> item.lfn == [])
    && (item.lfn != [] ==> IsName(item.lfn) && InBuffer(dj.lfn[..], item.lfn))
  }

  // The cursor is on the entry of the first of the objects; rest are the items behind it.
  ghost predicate StopsAt(dj: Dir, rows: seq<Row>, item: Item, rest: seq<Item>)
    reads dj, dj.lfn, dj.fs, dj.fs.win
  {
    && AtRow(dj, item) && IsTable(dj.slots[dj.index + 1..], rest)
    && FirstIs(rows, Row(dj.index, item), Rows(rest, dj.index + 1))
  }

  ghost predicate Usable(dj: Dir)
    reads dj, dj.fs, dj.fs.win
  {
    dj.Valid() && dj.lfn.Length == MAX_LFN + 1 && dj.lfn as object != dj.fs.win as object
  }

  /** Where the loop of dir_read is: at slot index, on the first of the items rest, which starts at slot p. */
  ghost predicate ReadingAt(dj: Dir, p: nat, rest: seq<Item>, ord: byte, sum: byte)
    reads dj, dj.lfn, dj.fs, dj.fs.win
  {
    Usable(dj) && dj.Here() && dj.index < |dj.slots|
      && Reading(dj.slots, dj.lfn[..], p, dj.index, rest, Look(ord, sum, dj.lfnIdx))
  }

  // A slot looked at: the end of the table, an entry, or nothing to stop at.
  datatype Sight = End | Entry | Passed

  // At a segment of a long name.
  method LookSegment(dj: Dir, slot: Slot, ord0: byte, sum0: byte, ghost p: nat, ghost rest: seq<Item>)
    returns (ord: byte, sum: byte)
    requires ReadingAt(dj, p, rest, ord0, sum0) && slot == dj.slots[dj.index]
    requires slot[0] != 0 && !PassedOver(slot) && IsLfnSlot(slot)
    modifies dj`lfnIdx, dj.lfn
    ensures Usable(dj) && Reading(dj.slots, dj.lfn[..], p, dj.index + 1, rest, Look(ord, sum, dj.lfnIdx))
  {
    SegmentTaken(dj.slots, dj.lfn[..], p, dj.index, rest, Look(ord0, sum0, dj.lfnIdx));
    hide Reading, Dir.Valid, Picked, Taken;
    ord, sum := ReadSegment(dj, slot, ord0, sum0);
  }

  // At the entry of an object.
  method LookEntry(dj: Dir, slot: Slot, ord: byte, sum: byte, ghost p: nat, ghost rest: seq<Item>)
    requires ReadingAt(dj, p, rest, ord, sum) && InWindow(dj, slot) && slot[0] != 0 && !PassedOver(slot)
             && !IsLfnSlot(slot)
    modifies dj`lfnIdx
    ensures Usable(dj) && rest != [] && AtRow(dj, rest[0])
  {
    AtEntry(dj.slots, dj.lfn[..], p, dj.index, rest, Look(ord, sum, dj.lfnIdx));
    hide Reading, Rows, FirstIs, IsTable;
    var s := SumSfn(slot);
    if ord != 0 || sum != s {
      dj.lfnIdx := NO_LFN;
    }
  }

  method LoadHere(dj: Dir, ghost ord: byte, ghost sum: byte, ghost p: nat, ghost rest: seq<Item>) returns (slot: Slot)
    requires ReadingAt(dj, p, rest, ord, sum)
    modifies dj.fs`disk, dj.fs`winsect, dj.fs`wflag, dj.fs.win
    ensures ReadingAt(dj, p, rest, ord, sum) && InWindow(dj, slot)
  {
    hide Reading;
    slot := dj.LoadSlot();
  }

  // Looks at the current slot.
  method LookAt(dj: Dir, ord0: byte, sum0: byte, ghost p: nat, ghost rest: seq<Item>)
    returns (sight: Sight, ord: byte, sum: byte, ghost p': nat, ghost rest': seq<Item>)
    requires ReadingAt(dj, p, rest, ord0, sum0)
    modifies dj`lfnIdx, dj.lfn, dj.fs`disk, dj.fs`winsect, dj.fs`wflag, dj.fs.win
    ensures Usable(dj)
    ensures sight == End ==> rest == []
    ensures sight == Entry ==> rest != [] && StopsAt(dj, Rows(rest, p), rest[0], rest[1..])
    ensures sight == Passed ==> Rows(rest', p') == Rows(rest, p)
    ensures sight == Passed ==> Reading(dj.slots, dj.lfn[..], p', dj.index + 1, rest', Look(ord, sum, dj.lfnIdx))
  {
    hide Reading, Dir.Valid, Dir.Here, Rows, IsTable, AtRow, FirstIs, PassedOver, IsLfnSlot;
    ord, sum, p', rest' := ord0, sum0, p, rest;
    var slot := LoadHere(dj, ord, sum, p, rest);
    if slot[0] == 0 {
      AtEnd(dj.slots, dj.lfn[..], p, dj.index, rest, Look(ord0, sum0, dj.lfnIdx));
      sight := End;
    } else if PassedOver(slot) {
      AtPassed(dj.slots, dj.lfn[..], p, dj.index, rest, Look(ord0, sum0, dj.lfnIdx));
      ord, p', rest' := NO_ORDER, dj.index + 1, rest[1..];
      sight := Passed;
    } else if IsLfnSlot(slot) {
      ord, sum := LookSegment(dj, slot, ord, sum, p, rest);
      sight := Passed;
    } else {
      AtEntry(dj.slots, dj.lfn[..], p, dj.index, rest, Look(ord0, sum0, dj.lfnIdx));
      LookEntry(dj, slot, ord, sum, p, rest);
      assert StopsAt(dj, Rows(rest, p), rest[0], rest[1..]);
      sight := Entry;
    }
  }

  // One turn of the loop of dir_read.
  method ReadTurn(dj: Dir, ord0: byte, sum0: byte, ghost p: nat, ghost rest: seq<Item>)
    returns (res: FResult, sight: Sight, ord: byte, sum: byte, ghost p': nat, ghost rest': seq<Item>)
    requires ReadingAt(dj, p, rest, ord0, sum0)
    modifies dj, dj.lfn, dj.fs, dj.fs.win
    ensures Usable(dj) && dj.SameTable() && dj.sclust == old(dj.sclust)
    ensures sight == End ==> res == NoFile && Rows(rest, p) == []
    ensures sight == Entry ==> res == Ok && rest != [] && StopsAt(dj, Rows(rest, p), rest[0], rest[1..])
    ensures sight == Passed ==> res == Ok && ReadingAt(dj, p', rest', ord, sum) && dj.index == old(dj.index) + 1
    ensures sight == Passed ==> Rows(rest', p') == Rows(rest, p)
  {
    hide Reading, Dir.Valid, Dir.Here, IsTable, StopsAt;
    res := Ok;
    sight, ord, sum, p', rest' := LookAt(dj, ord0, sum0, p, rest);
    if sight == End {
      res := NoFile;
    } else if sight == Passed {
      ghost var none;
      ghost var look := Look(ord, sum, dj.lfnIdx);
      res, none := dj.DirNext(false, {});
      if res != Ok {
        AtEnd(dj.slots, dj.lfn[..], p', |dj.slots|, rest', look);
        sight := End;
      }
    }
  }

  lemma FirstRow(rows: seq<Row>, row: Row, behind: seq<Row>)
    requires FirstIs(rows, row, behind)
    ensures rows != [] && rows[0] == row && rows[1..] == behind
  {
  }

  lemma NoRows(i: nat)
    ensures Rows([], i) == []
  {
  }

  lemma OnSlot(dj: Dir)
    requires dj.Valid() && dj.Here()
    ensures dj.sect != 0 && dj.index < |dj.slots|
  {
    dj.SlotHere();
  }

  lemma NoneBehind(slots: seq<Slot>, rest: seq<Item>)
    requires IsTable(slots[|slots|..], rest)
    ensures rest == []
  {
  }

  // Where f_readdir is between two calls: on slot index, where the items rest start, or behind the end of the table.
  ghost predicate Between(dj: Dir, rest: seq<Item>)
    reads dj, dj.fs, dj.fs.win
  {
    && Usable(dj)
    && if dj.sect == 0 then rest == [] else dj.Here() && dj.index < |dj.slots| && IsTable(dj.slots[dj.index..], rest)
  }

  /** dir_read: the cursor to the next object, its long name in the buffer; rest' are the items behind it. */
  method DirRead(dj: Dir, ghost rest: seq<Item>) returns (res: FResult, ghost item: Item, ghost rest': seq<Item>)
    requires Between(dj, rest)
    modifies dj, dj.lfn, dj.fs, dj.fs.win
    ensures Usable(dj) && dj.SameTable() && dj.sclust == old(dj.sclust)
    ensures res == if Rows(rest, old(dj.index)) == [] then NoFile else Ok
    ensures res == Ok ==> StopsAt(dj, Rows(rest, old(dj.index)), item, rest')
    ensures res != Ok ==> dj.sect == 0
  {
    res, item, rest' := NoFile, Gone, rest;
    if dj.sect == 0 {
      return;
    }
    var sight, ord: byte, sum: byte := Passed, NO_ORDER, NO_ORDER;
    ghost var p, rows := dj.index, Rows(rest, dj.index);
    assert ReadingAt(dj, p, rest', ord, sum);
    hide Reading, ReadingAt, Usable, StopsAt, Between, Rows;
    while sight == Passed
      invariant Usable(dj) && dj.SameTable() && dj.sclust == old(dj.sclust)
      invariant sight == Passed ==> ReadingAt(dj, p, rest', ord, sum) && Rows(rest', p) == rows
      invariant sight == End ==> res == NoFile && rows == []
      invariant sight == Entry ==> res == Ok && rows != [] && StopsAt(dj, rows, item, rest')
      decreases sight == Passed, |dj.slots| - dj.index
    {
      ghost var was := rest';
      res, sight, ord, sum, p, rest' := ReadTurn(dj, ord, sum, p, was);
      if sight == Entry {
        item, rest' := was[0], was[1..];
      }
    }
    if res != Ok {
      dj.sect := 0;
    }
  }

  /** What f_readdir tells of an object: the short name, and the long one if there is one that fits; the attribute, the
      size, and when it was last written. */
  datatype FileInfo = FileInfo(fname: seq<byte>, lfname: seq<byte>, attr: byte, size: nat, date: nat, time: nat)

  // The long name as get_fileinfo shows it: in the code page, and not at all if it does not fit.
  function LongShown(name: seq<Wchar>): seq<byte> {
    if |name| < MAX_LFN && forall k :: 0 <= k < |name| ==> ToOem(name[k]) != 0
    then seq(|name|, k requires 0 <= k < |name| => ToOem(name[k]))
    else []
  }

  ghost function InfoOf(item: Item): FileInfo
    requires item.Named?
  {
    var entry := item.entry;
    FileInfo(DisplayName(entry), LongShown(item.lfn), entry[11], LdDword(entry, 28), LdWord(entry, 24),
      LdWord(entry, 22))
  }

  // The loop of get_fileinfo that copies the long name.
  method CopyLong(lfn: array<Wchar>, ghost name: seq<Wchar>) returns (p: seq<byte>)
    requires InBuffer(lfn[..], name) && IsName(name)
    ensures p == LongShown(name)
  {
    hide ToOem;
    assert forall k :: 0 <= k < |name| ==> lfn[..][..|name|][k] == lfn[k];
    p := [];
    var i := 0;
    while lfn[i] != 0
      invariant i == |p| <= |name| && i < MAX_LFN && forall k :: 0 <= k < i ==> p[k] == ToOem(name[k]) != 0
      decreases |name| - i
    {
      var w := ToOem(lfn[i]);
      i := i + 1;
      if w == 0 {
        return [];
      }
      p := p + [w];
      if |p| >= MAX_LFN {
        return [];
      }
    }
  }

  /** get_fileinfo, on the entry dir_read has stopped at. */
  method GetFileInfo(dj: Dir, ghost item: Item) returns (info: FileInfo)
    requires Usable(dj) && AtRow(dj, item)
    ensures info == InfoOf(item)
  {
    var dir := dj.fs.win[dj.ofs..dj.ofs + 32];
    var fname := GetFileName(dir);
    var lfname := [];
    if dj.lfnIdx != NO_LFN {
      lfname := CopyLong(dj.lfn, item.lfn);
    }
    info := FileInfo(fname, lfname, dir[11], LdDword(dir, 28), LdWord(dir, 24), LdWord(dir, 22));
  }

  /** f_readdir: the next object, and on to the slot behind it. Where that slot is behind the end of the table the
      result says that there is no object. */
  method ReadDir(dj: Dir, ghost rest: seq<Item>)
    returns (res: FResult, info: FileInfo, ghost item: Item, ghost rest': seq<Item>)
    requires Between(dj, rest)
    modifies dj, dj.lfn, dj.fs, dj.fs.win
    ensures dj.SameTable() && dj.sclust == old(dj.sclust) && Between(dj, rest')
    ensures Rows(rest, old(dj.index)) == [] ==> res == NoFile
    ensures Rows(rest, old(dj.index)) != [] ==>
              var row := Rows(rest, old(dj.index))[0];
              && row.item == item && item.Named? && info == InfoOf(item)
              && Rows(rest, old(dj.index))[1..] == Rows(rest', row.at + 1)
              && row.at < |dj.slots|
              && if row.at + 1 < |dj.slots| then res == Ok && dj.sect != 0 && dj.index == row.at + 1
                 else res == NoFile && Rows(rest, old(dj.index)) == [row]
  {
    hide InfoOf, LdDword, LdWord;
    hide Rows, IsTable, Dir.Valid, Dir.Here;
    info := FileInfo([], [], 0, 0, 0, 0);
    ghost var rows := Rows(rest, dj.index);
    res, item, rest' := DirRead(dj, rest);
    if res == NoFile {
      dj.sect := 0;
      rest' := [];
    } else {
      ghost var at := dj.index;
      FirstRow(rows, Row(at, item), Rows(rest', at + 1));
      info := GetFileInfo(dj, item);
      ghost var none;
      res, none := dj.DirNext(false, {});
      if res == NoFile {
        NoneBehind(dj.slots, rest');
        NoRows(at + 1);
        assert rows == [Row(at, item)];
        dj.sect := 0;
      } else {
        OnSlot(dj);
      }
    }
  }

  // The name FS_ReadDir takes: the long one if there is one.
  function NameOf(info: FileInfo): seq<byte> {
    if info.lfname != [] then info.lfname else info.fname
  }

  ghost function NamesOf(rows: seq<Row>): (r: seq<seq<byte>>)
    requires forall k :: 0 <= k < |rows| ==> rows[k].item.Named?
    ensures |r| == |rows|
  {
    seq(|rows|, k requires 0 <= k < |rows| => NameOf(InfoOf(rows[k].item)))
  }

  // The objects a caller is told of that stops at the first result that is not FR_OK; the table has n slots.
  ghost function Told(rows: seq<Row>, n: nat): (r: seq<Row>)
    ensures r <= rows
  {
    if rows != [] && rows[|rows| - 1].at + 1 == n then rows[..|rows| - 1] else rows
  }

  lemma {:induction false} RowsNamed(items: seq<Item>, i: nat)
    ensures forall k :: 0 <= k < |Rows(items, i)| ==> Rows(items, i)[k].item.Named?
    decreases |items|
  {
    if items == [] {
    } else {
      RowsNamed(items[1..], i + Size(items[0]));
    }
  }

  // The names still to come.
  ghost function ToldFrom(rest: seq<Item>, i: nat, n: nat): seq<seq<byte>> {
    RowsNamed(rest, i);
    NamesOf(Told(Rows(rest, i), n))
  }

  lemma ToldFirst(rows: seq<Row>, n: nat)
    requires rows != [] && rows[0].at + 1 < n && forall k :: 0 <= k < |rows| ==> rows[k].item.Named?
    ensures NamesOf(Told(rows, n)) == [NameOf(InfoOf(rows[0].item))] + NamesOf(Told(rows[1..], n))
  {
  }

  // f_readdir, in terms of the names still to come.
  method NextName(dj: Dir, ghost rest: seq<Item>) returns (res: FResult, name: seq<byte>, ghost rest': seq<Item>)
    requires Between(dj, rest)
    modifies dj, dj.lfn, dj.fs, dj.fs.win
    ensures dj.SameTable() && dj.sclust == old(dj.sclust) && Between(dj, rest') && Usable(dj)
            && (res == Ok || res == NoFile)
    ensures ToldFrom(rest, old(dj.index), |dj.slots|)
            == if res == Ok then [name] + ToldFrom(rest', dj.index, |dj.slots|) else []
    ensures res == Ok ==> |Rows(rest', dj.index)| < |Rows(rest, old(dj.index))|
  {
    hide Rows, IsTable, InfoOf;
    ghost var rows, item, n := Rows(rest, dj.index), Gone, |dj.slots|;
    RowsNamed(rest, dj.index);
    var info;
    res, info, item, rest' := ReadDir(dj, rest);
    name := NameOf(info);
    if res == Ok {
      RowsNamed(rest', dj.index);
      ToldFirst(rows, n);
    }
  }

  // The last part of f_opendir.
  method Rewind(dj: Dir, ghost items: seq<Item>)
    requires Usable(dj) && IsTable(dj.slots, items)
    modifies dj, dj.fs, dj.fs.win
    ensures Between(dj, items) && dj.index == 0 && dj.SameTable() && dj.sclust == old(dj.sclust)
  {
    var res := dj.DirSeek(0);
    if res != Ok {
      assert false;
    }
    OnSlot(dj);
    assert dj.slots[0..] == dj.slots;
  }

  /** The loop of FS_ReadDir: the names of the objects, in the order of the table, all but one that ends the table. */
  method List(dj: Dir, ghost items: seq<Item>) returns (names: seq<seq<byte>>)
    requires Usable(dj) && IsTable(dj.slots, items)
    modifies dj, dj.lfn, dj.fs, dj.fs.win
    ensures Usable(dj) && dj.SameTable() && dj.sclust == old(dj.sclust) && names == ToldFrom(items, 0, |dj.slots|)
  {
    hide Rows, IsTable, ToldFrom, Between, Usable;
    var res, name;
    ghost var goal, rest := ToldFrom(items, 0, |dj.slots|), items;
    Rewind(dj, items);
    names := [];
    res, name, rest := NextName(dj, rest);
    ghost var left := goal;
    while res == Ok
      invariant Between(dj, rest) && Usable(dj) && dj.SameTable() && dj.sclust == old(dj.sclust)
                && (res == Ok || res == NoFile)
      invariant goal == names + left
      invariant left == if res == Ok then [name] + ToldFrom(rest, dj.index, |dj.slots|) else []
      decreases res == Ok, |Rows(rest, dj.index)|
    {
      left := ToldFrom(rest, dj.index, |dj.slots|);
      assert names + ([name] + left) == names + [name] + left;
      names := names + [name];
      res, name, rest := NextName(dj, rest);
    }
  }

  // The slot is the entry of an object that is not a dot entry.
  predicate IsObject(slot: Slot) {
    slot[0] != 0 && !PassedOver(slot) && !IsLfnSlot(slot)
  }

  // The last object's entry is the slot in front of slot e.
  ghost predicate EndsAt(rows: seq<Row>, e: nat) {
    rows != [] && rows[|rows| - 1].at + 1 == e
  }

  lemma EndsBehind(items: seq<Item>, i: nat, e: nat)
    requires items != []
    ensures var n := Size(items[0]);
            EndsAt(Rows(items, i), e)
            <==> if Rows(items[1..], i + n) == [] then Listed(items[0]) && i + n == e
              else EndsAt(Rows(items[1..], i + n), e)
  {
  }

  lemma LastOfItem(slots: seq<Slot>, items: seq<Item>)
    requires IsTable(slots, items) && items != []
    ensures Size(items[0]) <= |slots| && (IsObject(slots[Size(items[0]) - 1]) <==> Listed(items[0]))
  {
    assert slots[0..] == slots;
    ItemSlot(slots, 0, Size(items[0]) - 1, items);
  }

  // The last object ends the table exactly if the table's last slot is an object's entry.
  lemma {:induction false} LastRow(slots: seq<Slot>, items: seq<Item>, i: nat)
    requires IsTable(slots, items) && slots != []
    ensures EndsAt(Rows(items, i), i + |slots|) <==> IsObject(slots[|slots| - 1])
    decreases |items|
  {
    if items == [] {
    } else {
      var n := Size(items[0]);
      LastOfItem(slots, items);
      TableFirst(slots, items);
      EndsBehind(items, i, i + |slots|);
      hide IsItem, IsObject, Listed;
      if n == |slots| {
        NoneBehind(slots, items[1..]);
      } else {
        LastRow(slots[n..], items[1..], i + n);
      }
    }
  }

  /** So a caller is told of every object if and only if the table's last slot is not in use by one. */
  lemma AllTold(slots: seq<Slot>, items: seq<Item>)
    requires IsTable(slots, items) && slots != []
    ensures forall k :: 0 <= k < |Rows(items, 0)| ==> Rows(items, 0)[k].item.Named?
    ensures ToldFrom(items, 0, |slots|) == NamesOf(Rows(items, 0)) <==> !IsObject(slots[|slots| - 1])
  {
    RowsNamed(items, 0);
    LastRow(slots, items, 0);
  }

  // The entry of a file whose name is letter number k.
  function Letter(k: nat): Slot
    requires k < 16
  {
    [0x41 + k] + seq(10, _ => 0x20) + seq(21, _ => 0)
  }

  ghost function Letters(k: nat): (r: (seq<Slot>, seq<Item>))
    requires k <= 16
    ensures |r.0| == |r.1| == 16 - k && forall j :: 0 <= j < 16 - k ==> r.1[j] == Item.Named([], Letter(k + j))
    decreases 16 - k
  {
    if k == 16 then ([], [])
    else
      var r := Letters(k + 1);
      ([Letter(k)] + r.0, [Item.Named([], Letter(k))] + r.1)
  }

  lemma {:induction false} LettersTable(k: nat)
    requires k <= 16
    ensures IsTable(Letters(k).0, Letters(k).1) && |Rows(Letters(k).1, k)| == 16 - k
    decreases 16 - k
  {
    if k == 16 {
    } else {
      LettersTable(k + 1);
      var slots, items := Letters(k).0, Letters(k).1;
      assert slots[1..] == Letters(k + 1).0 && items[1..] == Letters(k + 1).1 && slots[..1] == [Letter(k)];
    }
  }

  /** A full sector of one-slot entries A to P: the listing has fifteen names, and P is not among them. */
  lemma SixteenLetters()
    ensures var slots, items := Letters(0).0, Letters(0).1;
            && IsTable(slots, items) && IsNameMap(items) && |Rows(items, 0)| == 16
            && |ToldFrom(items, 0, |slots|)| == 15
  {
    hide Letters, Letter, Rows, IsTable, IsNameMap;
    var slots, items := Letters(0).0, Letters(0).1;
    LettersTable(0);
    RowsNamed(items, 0);
    LastRow(slots, items, 0);
    LastOfLetters(0);
    LettersApart();
  }

  lemma LettersApart()
    ensures IsNameMap(Letters(0).1)
  {
    hide Letters, ShortOf, SameName, Answers;
    var items := Letters(0).1;
    forall j, k | 0 <= j < k < 16 ensures Apart(items[j], items[k]) {
      LetterApart(items[j], items[k], j, k);
    }
  }

  lemma LetterApart(a: Item, b: Item, j: nat, k: nat)
    requires j < k < 16 && a == Item.Named([], Letter(j)) && b == Item.Named([], Letter(k))
    ensures Apart(a, b)
  {
    hide ShortOf;
    assert Letter(j)[..11][0] == 0x41 + j && Letter(k)[..11][0] == 0x41 + k;
  }

  lemma {:induction false} LastOfLetters(k: nat)
    requires k < 16
    ensures Letters(k).0[15 - k] == Letter(15) && IsObject(Letter(15))
    decreases 16 - k
  {
    if k == 15 {
    } else {
      LastOfLetters(k + 1);
    }
  }
}
