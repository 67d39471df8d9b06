/** A directory as a table of 32-byte slots, and as the list of named entries the slots stand for. */
module Entries {
  import opened Bytes
  import opened LongNames
  import opened ShortNames

  const NO_ORDER: byte := 0xFF
  const NO_LFN: nat := 0xFFFF

  // A slot is free, or behind the end of the table.
  predicate IsBlank(slot: Slot) {
    FreeMark(slot[0])
  }

  // dir[DIR_Attr] & AM_MASK is AM_LFN.
  predicate IsLfnSlot(slot: Slot) {
    slot[11] % 0x40 == AM_LFN
  }

  // AM_VOL is set.
  predicate HasVolumeBit(slot: Slot) {
    slot[11] / 0x08 % 2 == 1
  }

  // An entry without valid data.
  predicate IsSkipped(slot: Slot) {
    slot[0] == 0xE5 || (HasVolumeBit(slot) && !IsLfnSlot(slot))
  }

  // No long-name slot has order 0: test_lfn would compare what lies in front of its buffer.
  ghost predicate OrdersGood(slots: seq<Slot>) {
    forall i :: 0 <= i < |slots| && !IsBlank(slots[i]) && IsLfnSlot(slots[i]) ==> 1 <= OrderOf(slots[i][0])
  }

  /** What dir_find looks for: the name in the working buffer, if it may look at long names, and the short name. */
  datatype Key = Key(hasLfn: bool, buf: seq<Wchar>, sfn: seq<byte>, loss: bool)

  /** Where an entry was found, and where its long name starts. */
  datatype Search = Hit(index: nat, lfnIdx: nat) | Miss

  /** The variables of the loop of dir_find. */
  datatype Look = Look(ord: byte, sum: byte, lfnIdx: nat)

  ghost predicate KeyFor(key: Key, name: seq<Wchar>) {
    InBuffer(key.buf, name) && (forall i :: 0 <= i < |name| ==> name[i] != 0) && |key.sfn| == 11
  }

  // The search key create_name makes of a name.
  ghost predicate IsKeyOf(key: Key, name: seq<Wchar>) {
    KeyFor(key, name) && key.hasLfn && key.sfn == ShortOf(name).sfn && key.loss == ShortOf(name).status.loss
  }

  ghost predicate SlotMatches(key: Key, slot: Slot)
    requires |key.buf| == MAX_LFN + 1
  {
    1 <= OrderOf(slot[0]) && Matches(key.buf, slot)
  }

  // What dir_find makes of the long-name slot with index i.
  ghost function SegmentLook(key: Key, slot: Slot, i: nat, look: Look): Look
    requires |key.buf| == MAX_LFN + 1
  {
    var c := OrderOf(slot[0]);
    var l := if IsLast(slot[0]) then Look(c, slot[13], i) else look;
    Look(if c == l.ord && l.sum == slot[13] && SlotMatches(key, slot) then c - 1 else NO_ORDER, l.sum, l.lfnIdx)
  }

  /** The search of dir_find from slot i on; slots are those that are left. */
  ghost function Find(slots: seq<Slot>, i: nat, key: Key, look: Look): Search
    requires OrdersGood(slots) && |key.buf| == MAX_LFN + 1
  {
    if slots == [] || slots[0][0] == 0 then Miss
    else
      var slot, rest := slots[0], slots[1..];
      if IsSkipped(slot) then Find(rest, i + 1, key, look.(ord := NO_ORDER))
      else if IsLfnSlot(slot) then Find(rest, i + 1, key, if key.hasLfn then SegmentLook(key, slot, i, look) else look)
      else if look.ord == 0 && look.sum == SumOf(slot, 11) then Hit(i, look.lfnIdx)
      else if !key.loss && slot[..11] == key.sfn then Hit(i, NO_LFN)
      else Find(rest, i + 1, key, Look(NO_ORDER, look.sum, NO_LFN))
  }

  // Between names the state of the search is idle.
  ghost predicate Idle(look: Look) {
    look.ord == NO_ORDER
  }

  lemma {:induction false} IdleAlike(slots: seq<Slot>, i: nat, key: Key, a: Look, b: Look)
    requires OrdersGood(slots) && |key.buf| == MAX_LFN + 1 && Idle(a) && Idle(b)
    ensures Find(slots, i, key, a) == Find(slots, i, key, b)
    decreases |slots|
  {
    if slots != [] && slots[0][0] != 0 {
      var slot, rest := slots[0], slots[1..];
      if !IsSkipped(slot) && IsLfnSlot(slot) {
        if key.hasLfn {
          var a', b' := SegmentLook(key, slot, i, a), SegmentLook(key, slot, i, b);
          if a' != b' {
            IdleAlike(rest, i + 1, key, a', b');
          }
        } else {
          IdleAlike(rest, i + 1, key, a, b);
        }
      } else {
        IdleAlike(rest, i + 1, key, a, b);
        IdleAlike(rest, i + 1, key, Look(NO_ORDER, a.sum, NO_LFN), Look(NO_ORDER, b.sum, NO_LFN));
      }
    }
  }

  /** What a run of slots stands for: a removed slot, a volume label, or an object with its long name, [] for none. */
  datatype Item = Gone | Label | Named(lfn: seq<Wchar>, entry: Slot)

  function Size(item: Item): (n: nat)
    ensures 1 <= n
  {
    if item.Named? && item.lfn != [] then Segments(item.lfn) + 1 else 1
  }

  ghost predicate IsItem(slots: seq<Slot>, item: Item) {
    && |slots| == Size(item)
    && match item
       case Gone => slots[0][0] == 0xE5
       case Label => !IsBlank(slots[0]) && HasVolumeBit(slots[0]) && !IsLfnSlot(slots[0])
       case Named(lfn, entry) =>
         && IsEntry(entry) && slots[|slots| - 1] == entry
         && (lfn != [] ==> IsRun(slots[..|slots| - 1], lfn, SumOf(entry, 11)))
  }

  ghost predicate IsEntry(entry: Slot) {
    !IsBlank(entry) && !HasVolumeBit(entry) && !IsLfnSlot(entry)
  }

  // The slots of a long name: the last segment first.
  ghost predicate IsRun(slots: seq<Slot>, lfn: seq<Wchar>, sum: byte) {
    && IsName(lfn) && |slots| == Segments(lfn)
    && forall k :: 0 <= k < |slots| ==> IsSegment(slots[k], lfn, |slots| - k, sum)
  }

  /** The slots are those of the items, one behind the other, and then nothing but zero slots. */
  ghost predicate IsTable(slots: seq<Slot>, items: seq<Item>) {
    if items == [] then forall i :: 0 <= i < |slots| ==> slots[i][0] == 0
    else
      && Size(items[0]) <= |slots| && IsItem(slots[..Size(items[0])], items[0])
      && IsTable(slots[Size(items[0])..], items[1..])
  }

  ghost predicate LongMatch(item: Item, key: Key, name: seq<Wchar>) {
    item.Named? && item.lfn != [] && key.hasLfn && SameName(name, item.lfn) && |item.lfn| < MAX_LFN
  }

  ghost predicate ShortMatch(item: Item, key: Key) {
    item.Named? && !key.loss && item.entry[..11] == key.sfn
  }

  /** The search seen on items: the first one with the name, long or short. */
  ghost function Lookup(items: seq<Item>, i: nat, key: Key, name: seq<Wchar>): Search {
    if items == [] then Miss
    else if LongMatch(items[0], key, name) then Hit(i + Size(items[0]) - 1, i)
    else if ShortMatch(items[0], key) then Hit(i + Size(items[0]) - 1, NO_LFN)
    else Lookup(items[1..], i + Size(items[0]), key, name)
  }

  lemma OrdersOfRun(slots: seq<Slot>, lfn: seq<Wchar>, sum: byte)
    requires IsRun(slots, lfn, sum)
    ensures RunSlots(slots, sum)
  {
    forall k | 0 <= k < |slots| ensures RunSlot(slots[k], |slots| - k, k == 0, sum) {
      OrderByte(slots[k], lfn, |slots| - k, sum);
    }
  }

  lemma {:induction false} TableOrders(slots: seq<Slot>, items: seq<Item>)
    requires IsTable(slots, items)
    ensures OrdersGood(slots)
    decreases |items|
  {
    if items == [] {
    } else {
      var n := Size(items[0]);
      var run, rest := slots[..n], slots[n..];
      TableOrders(rest, items[1..]);
      ItemOrders(run, items[0]);
      forall i | 0 <= i < |slots| && !IsBlank(slots[i]) && IsLfnSlot(slots[i]) ensures 1 <= OrderOf(slots[i][0]) {
        assert if i < n then slots[i] == run[i] else slots[i] == rest[i - n];
      }
    }
  }

  lemma ItemOrders(slots: seq<Slot>, item: Item)
    requires IsItem(slots, item)
    ensures OrdersGood(slots)
  {
    if item.Named? && item.lfn != [] {
      var n := |slots| - 1;
      OrdersOfRun(slots[..n], item.lfn, SumOf(item.entry, 11));
      forall i | 0 <= i < |slots| && !IsBlank(slots[i]) && IsLfnSlot(slots[i]) ensures 1 <= OrderOf(slots[i][0]) {
        assert i < n ==> slots[i] == slots[..n][i];
      }
    }
  }

  ghost predicate AllMatch(key: Key, run: seq<Slot>, k: nat)
    requires |key.buf| == MAX_LFN + 1 && k <= |run|
  {
    forall m :: 0 <= m < k ==> SlotMatches(key, run[m])
  }

  // The state of the search after k slots of a long name's run that starts at index i.
  ghost predicate RunLook(look: Look, run: seq<Slot>, k: nat, i: nat, key: Key, sum: byte)
    requires k <= |run| <= 20 && |key.buf| == MAX_LFN + 1
  {
    if 0 < k && AllMatch(key, run, k) then look == Look(|run| - k, sum, i) else Idle(look)
  }

  // One slot of the run.
  lemma RunStep(run: seq<Slot>, k: nat, i: nat, key: Key, sum: byte, look: Look)
    requires k < |run| <= 20 && |key.buf| == MAX_LFN + 1 && RunLook(look, run, k, i, key, sum)
    requires OrderOf(run[k][0]) == |run| - k && (IsLast(run[k][0]) <==> k == 0) && run[k][13] == sum
    ensures RunLook(SegmentLook(key, run[k], i + k, look), run, k + 1, i, key, sum)
  {
    assert AllMatch(key, run, k + 1) <==> AllMatch(key, run, k) && SlotMatches(key, run[k]);
  }

  lemma FindStep(slots: seq<Slot>, k: nat, i: nat, key: Key, look: Look)
    requires OrdersGood(slots) && |key.buf| == MAX_LFN + 1 && key.hasLfn
    requires k < |slots| && !IsBlank(slots[k]) && IsLfnSlot(slots[k])
    ensures OrdersGood(slots[k..]) && OrdersGood(slots[k + 1..])
    ensures Find(slots[k..], i + k, key, look) == Find(slots[k + 1..], i + k
            + 1, key, SegmentLook(key, slots[k], i + k, look))
  {
    assert slots[k..][0] == slots[k] && slots[k..][1..] == slots[k + 1..];
  }

  ghost predicate RunSlot(slot: Slot, ord: nat, last: bool, sum: byte) {
    !IsBlank(slot) && IsLfnSlot(slot) && OrderOf(slot[0]) == ord && (IsLast(slot[0]) <==> last) && slot[13] == sum
  }

  ghost predicate RunSlots(run: seq<Slot>, sum: byte) {
    |run| <= 20 && forall k :: 0 <= k < |run| ==> RunSlot(run[k], |run| - k, k == 0, sum)
  }

  // dir_find running over the slots of a long name.
  lemma {:induction false} FindRun(slots: seq<Slot>, run: seq<Slot>, k: nat, i: nat, key: Key, sum: byte, look: Look)
    returns (look': Look)
    requires OrdersGood(slots) && |key.buf| == MAX_LFN + 1 && key.hasLfn
    requires k <= |run| && run <= slots && RunSlots(run, sum) && RunLook(look, run, k, i, key, sum)
    ensures RunLook(look', run, |run|, i, key, sum)
    ensures OrdersGood(slots[k..]) && OrdersGood(slots[|run|..])
    ensures Find(slots[k..], i + k, key, look) == Find(slots[|run|..], i + |run|, key, look')
    decreases |run| - k
  {
    hide Find, RunLook, IsBlank, IsLfnSlot, OrderOf;
    if k == |run| {
      look' := look;
    } else {
      assert slots[k] == run[k];
      RunStep(run, k, i, key, sum, look);
      FindStep(slots, k, i, key, look);
      look' := FindRun(slots, run, k + 1, i, key, sum, SegmentLook(key, run[k], i + k, look));
    }
  }

  // Without a long name to look for, the run is passed over.
  lemma {:induction false} FindPast(slots: seq<Slot>, run: seq<Slot>, k: nat, i: nat, key: Key, sum: byte, look: Look)
    requires OrdersGood(slots) && |key.buf| == MAX_LFN + 1 && !key.hasLfn
    requires k <= |run| && run <= slots && RunSlots(run, sum)
    ensures OrdersGood(slots[k..]) && OrdersGood(slots[|run|..])
    ensures Find(slots[k..], i + k, key, look) == Find(slots[|run|..], i + |run|, key, look)
    decreases |run| - k
  {
    if k < |run| {
      assert slots[k] == run[k] && RunSlot(run[k], |run| - k, k == 0, sum);
      assert slots[k..][0] == slots[k] && slots[k..][1..] == slots[k + 1..];
      FindPast(slots, run, k + 1, i, key, sum, look);
    }
  }

  // Every slot of the run matches exactly when the names agree and the stored one is not too long.
  lemma RunMatches(run: seq<Slot>, key: Key, name: seq<Wchar>, lfn: seq<Wchar>, sum: byte)
    requires IsRun(run, lfn, sum) && KeyFor(key, name)
    ensures AllMatch(key, run, |run|) <==> SameName(name, lfn) && |lfn| < MAX_LFN
  {
    var n := |run|;
    forall m | 0 <= m < n ensures SlotMatches(key, run[m]) <==> SegmentAgrees(key.buf, lfn, n - m) {
      SegmentMatches(key.buf, run[m], lfn, n - m, sum);
    }
    AgreeIsSame(key.buf, name, lfn);
    if AllMatch(key, run, n) {
      forall ord | 1 <= ord <= n ensures SegmentAgrees(key.buf, lfn, ord) {
        assert SlotMatches(key, run[n - ord]);
      }
    }
  }

  // dir_find over the whole run of a long name.
  lemma FindLong(slots: seq<Slot>, run: seq<Slot>, i: nat, key: Key, name: seq<Wchar>, lfn: seq<Wchar>, sum: byte,
      look: Look)
    returns (look': Look)
    requires OrdersGood(slots) && KeyFor(key, name) && run <= slots && IsRun(run, lfn, sum) && Idle(look)
    ensures if key.hasLfn && SameName(name, lfn) && |lfn| < MAX_LFN then look' == Look(0, sum, i) else Idle(look')
    ensures OrdersGood(slots[|run|..]) && Find(slots, i, key, look) == Find(slots[|run|..], i + |run|, key, look')
  {
    OrdersOfRun(run, lfn, sum);
    assert slots[0..] == slots;
    if key.hasLfn {
      RunMatches(run, key, name, lfn, sum);
      look' := FindRun(slots, run, 0, i, key, sum, look);
    } else {
      FindPast(slots, run, 0, i, key, sum, look);
      look' := look;
    }
  }

  lemma FindEntry(slots: seq<Slot>, n: nat, i: nat, key: Key, look: Look)
    requires OrdersGood(slots) && |key.buf| == MAX_LFN + 1 && n < |slots| && IsEntry(slots[n])
    ensures Find(slots[n..], i + n, key, look) ==
            if look.ord == 0 && look.sum == SumOf(slots[n], 11) then Hit(i + n, look.lfnIdx)
            else if !key.loss && slots[n][..11] == key.sfn then Hit(i + n, NO_LFN)
            else Find(slots[n + 1..], i + n + 1, key, Look(NO_ORDER, look.sum, NO_LFN))
  {
    assert slots[n..][0] == slots[n] && slots[n..][1..] == slots[n + 1..];
  }

  // dir_find running over the slots of one item.
  lemma FindItem(slots: seq<Slot>, i: nat, item: Item, key: Key, name: seq<Wchar>, look: Look)
    requires OrdersGood(slots) && KeyFor(key, name) && Size(item) <= |slots| && IsItem(slots[..Size(item)], item)
             && Idle(look)
    ensures Find(slots, i, key, look) ==
            if LongMatch(item, key, name) then Hit(i + Size(item) - 1, i)
            else if ShortMatch(item, key) then Hit(i + Size(item) - 1, NO_LFN)
            else Find(slots[Size(item)..], i + Size(item), key, look)
  {
    var n := Size(item) - 1;
    var run, rest := slots[..n], slots[n + 1..];
    assert slots[..n + 1][n] == slots[n] && slots[..n + 1][..n] == run;
    if item.Named? {
      var look' := look;
      if item.lfn != [] {
        look' := FindLong(slots, run, i, key, name, item.lfn, SumOf(item.entry, 11), look);
      } else {
        assert slots[0..] == slots;
      }
      FindEntry(slots, n, i, key, look');
      IdleAlike(rest, i + n + 1, key, Look(NO_ORDER, look'.sum, NO_LFN), look);
    } else {
      IdleAlike(rest, i + n + 1, key, look.(ord := NO_ORDER), look);
    }
  }

  /** dir_find, run over the slots, finds what a search of the named entries finds. */
  lemma {:induction false} FindIsLookup(slots: seq<Slot>, i: nat, items: seq<Item>, key: Key, name: seq<Wchar>,
      look: Look)
    requires IsTable(slots, items) && KeyFor(key, name) && Idle(look)
    ensures OrdersGood(slots) && Find(slots, i, key, look) == Lookup(items, i, key, name)
    decreases |items|
  {
    hide IsTable, IsItem, OrdersGood, Find, Lookup, LongMatch, ShortMatch;
    TableOrders(slots, items);
    if items == [] {
      FindEnd(slots, i, key, name, look);
    } else {
      TableFirst(slots, items);
      var n := Size(items[0]);
      FindItem(slots, i, items[0], key, name, look);
      FindIsLookup(slots[n..], i + n, items[1..], key, name, look);
      LookupFirst(items, i, key, name, Find(slots, i, key, look), Find(slots[n..], i + n, key, look));
    }
  }

  lemma FindEnd(slots: seq<Slot>, i: nat, key: Key, name: seq<Wchar>, look: Look)
    requires IsTable(slots, []) && OrdersGood(slots) && KeyFor(key, name)
    ensures Find(slots, i, key, look) == Lookup([], i, key, name)
  {
  }

  lemma TableFirst(slots: seq<Slot>, items: seq<Item>)
    requires IsTable(slots, items) && items != []
    ensures Size(items[0]) <= |slots|
    ensures IsItem(slots[..Size(items[0])], items[0]) && IsTable(slots[Size(items[0])..], items[1..])
  {
  }

  lemma LookupFirst(items: seq<Item>, i: nat, key: Key, name: seq<Wchar>, found: Search, behind: Search)
    requires items != [] && behind == Lookup(items[1..], i + Size(items[0]), key, name)
    requires found == if LongMatch(items[0], key, name) then Hit(i + Size(items[0]) - 1, i)
                      else if ShortMatch(items[0], key) then Hit(i + Size(items[0]) - 1, NO_LFN)
                      else behind
    ensures found == Lookup(items, i, key, name)
  {
  }
}
