/** What writing and stretching the slots of a directory table does to its items. */
module TableEdits {
  import opened Bytes
  import opened LongNames
  import opened ShortNames
  import opened Entries
  import opened NameMap

  // Slots at to at + n of the table are free, and the one in front of them is not.
  ghost predicate FreeRun(slots: seq<Slot>, at: nat, n: nat) {
    && at + n <= |slots| && (forall k :: at <= k < at + n ==> IsBlank(slots[k]))
    && (0 < at ==> !IsBlank(slots[at - 1]))
  }

  // slots' is the table with the item's slots written over it from slot at on.
  ghost predicate Written(slots: seq<Slot>, slots': seq<Slot>, at: nat, item: Item) {
    && |slots'| == |slots| && at + Size(item) <= |slots|
    && IsItem(slots'[at..at + Size(item)], item)
    && slots'[..at] == slots[..at] && slots'[at + Size(item)..] == slots[at + Size(item)..]
  }

  // Slots of objects and labels are not blank.
  lemma InUse(slots: seq<Slot>, item: Item, k: nat)
    requires IsItem(slots, item) && k < |slots|
    ensures IsBlank(slots[k]) <==> item == Gone
  {
    if item.Named? && k < |slots| - 1 {
      var run := slots[..|slots| - 1];
      OrdersOfRun(run, item.lfn, SumOf(item.entry, 11));
      assert RunSlot(run[k], |run| - k, k == 0, SumOf(item.entry, 11)) && run[k] == slots[k];
    }
  }

  // Blank slots at the front of a table are removed slots, and then perhaps the table's end.
  lemma {:induction false} BlankFront(slots: seq<Slot>, items: seq<Item>, n: nat)
    returns (gone: seq<Item>, b: seq<Item>)
    requires IsTable(slots, items) && n <= |slots| && forall k :: 0 <= k < n ==> IsBlank(slots[k])
    ensures items == gone + b && AllGone(gone) && IsTable(slots[n..], b) && (b == [] || Total(gone) == n)
    decreases n
  {
    if n == 0 || items == [] {
      gone, b := [], items;
      assert slots[0..] == slots;
    } else {
      assert slots[..Size(items[0])][0] == slots[0];
      InUse(slots[..Size(items[0])], items[0], 0);
      gone, b := BlankFront(slots[1..], items[1..], n - 1);
      gone := [items[0]] + gone;
      assert slots[1..][n - 1..] == slots[n..];
    }
  }

  // An item written at the front of the table.
  lemma WriteFront(slots: seq<Slot>, items: seq<Item>, slots': seq<Slot>, item: Item)
    returns (gone: seq<Item>, b: seq<Item>)
    requires IsTable(slots, items) && FreeRun(slots, 0, Size(item)) && Written(slots, slots', 0, item)
    ensures Inserted(items, [] + [item] + b, [], gone, b, item) && IsTable(slots', [] + [item] + b)
  {
    var n := Size(item);
    gone, b := BlankFront(slots, items, n);
    assert slots'[0..n] == slots'[..n] && slots'[0 + n..] == slots'[n..];
    ConsItem(slots', item, b);
    assert [] + [item] + b == [item] + b && [] + gone + b == gone + b;
  }

  /** An item written over a free run of the table takes the place of removed slots, or goes to the table's end. */
  lemma {:induction false} WriteItem(slots: seq<Slot>, items: seq<Item>, slots': seq<Slot>, at: nat, item: Item)
    returns (a: seq<Item>, gone: seq<Item>, b: seq<Item>)
    requires IsTable(slots, items) && FreeRun(slots, at, Size(item)) && Written(slots, slots', at, item)
    ensures Inserted(items, a + [item] + b, a, gone, b, item) && IsTable(slots', a + [item] + b) && Total(a) == at
    decreases at
  {
    if at == 0 {
      a := [];
      gone, b := WriteFront(slots, items, slots', item);
    } else {
      var first, t, t', behind := FrontStays(slots, items, slots', at, item);
      var rest;
      rest, gone, b := WriteItem(t, behind, t', at - Size(first), item);
      a := WriteBehind(slots', items, t', first, behind, rest, gone, b, item);
    }
  }

  // The item written behind the first one, seen from the whole table.
  lemma WriteBehind(slots': seq<Slot>, items: seq<Item>, t': seq<Slot>, first: Item, behind: seq<Item>,
                    rest: seq<Item>, gone: seq<Item>, b: seq<Item>, item: Item) returns (a: seq<Item>)
    requires items == [first] + behind && Size(first) <= |slots'| && IsItem(slots'[..Size(first)], first)
             && t' == slots'[Size(first)..]
    requires Inserted(behind, rest + [item] + b, rest, gone, b, item) && IsTable(t', rest + [item] + b)
    ensures Inserted(items, a + [item] + b, a, gone, b, item) && IsTable(slots', a + [item] + b)
    ensures Total(a) == Size(first) + Total(rest)
  {
    a := [first] + rest;
    ConsItem(slots', first, rest + [item] + b);
    InsertCons(first, behind, rest, gone, b, item);
  }

  // What is inserted behind the first item stays inserted.
  lemma InsertCons(first: Item, items: seq<Item>, rest: seq<Item>, gone: seq<Item>, b: seq<Item>, item: Item)
    requires Inserted(items, rest + [item] + b, rest, gone, b, item)
    ensures ([first] + rest) + [item] + b == [first] + (rest + [item] + b)
    ensures Inserted([first] + items, ([first] + rest) + [item] + b, [first] + rest, gone, b, item)
    ensures Total([first] + rest) == Size(first) + Total(rest)
  {
    ConsJoin(first, rest, [item], b);
    ConsJoin(first, rest, gone, b);
    assert ([first] + rest)[1..] == rest;
  }

  lemma ConsJoin(first: Item, rest: seq<Item>, mid: seq<Item>, b: seq<Item>)
    ensures ([first] + rest) + mid + b == [first] + (rest + mid + b)
  {
  }

  lemma ConsItem(slots: seq<Slot>, item: Item, items: seq<Item>)
    requires Size(item) <= |slots| && IsItem(slots[..Size(item)], item) && IsTable(slots[Size(item)..], items)
    ensures IsTable(slots, [item] + items)
  {
    assert ([item] + items)[1..] == items;
  }

  // The first item lies in front of the run: what is left of the table behind it.
  lemma FrontStays(slots: seq<Slot>, items: seq<Item>, slots': seq<Slot>, at: nat, item: Item)
    returns (first: Item, t: seq<Slot>, t': seq<Slot>, behind: seq<Item>)
    requires IsTable(slots, items) && FreeRun(slots, at, Size(item)) && Written(slots, slots', at, item) && 0 < at
    ensures items == [first] + behind && Size(first) <= at <= |slots'| && IsItem(slots'[..Size(first)], first)
    ensures t' == slots'[Size(first)..] && IsTable(t, behind)
    ensures FreeRun(t, at - Size(first), Size(item)) && Written(t, t', at - Size(first), item)
  {
    first, behind := items[0], items[1..];
    var m := Size(first);
    t, t' := slots[m..], slots'[m..];
    if at < m {
      InUse(slots[..m], first, at);
    }
    assert slots'[..m] == slots'[..at][..m] == slots[..at][..m] == slots[..m];
    WrittenRest(slots, slots', at, item, m);
  }

  lemma WrittenRest(slots: seq<Slot>, slots': seq<Slot>, at: nat, item: Item, m: nat)
    requires Written(slots, slots', at, item) && m <= at
    ensures Written(slots[m..], slots'[m..], at - m, item)
  {
    var n := Size(item);
    assert slots'[m..][at - m..at - m + n] == slots'[at..at + n];
    assert slots'[m..][at - m + n..] == slots'[at + n..] && slots[m..][at - m + n..] == slots[at + n..];
    assert slots'[m..][..at - m] == slots'[..at][m..] && slots[m..][..at - m] == slots[..at][m..];
  }

  // The table while a long name of n segments is being written from slot at on: k segments are there.
  ghost predicate PartRun(t0: seq<Slot>, t: seq<Slot>, at: nat, k: nat, n: nat, lfn: seq<Wchar>, sum: byte) {
    && |t| == |t0| && k <= n <= 20 && at + n < |t|
    && t[..at] == t0[..at] && t[at + k..] == t0[at + k..]
    && forall m {:trigger t[m]} :: at <= m < at + k ==> IsSegment(t[m], lfn, n - (m - at), sum)
  }

  lemma PartRunMore(t0: seq<Slot>, t: seq<Slot>, at: nat, k: nat, n: nat, lfn: seq<Wchar>, sum: byte, slot: Slot)
    requires PartRun(t0, t, at, k, n, lfn, sum) && k < n && IsSegment(slot, lfn, n - k, sum)
    ensures PartRun(t0, t[at + k := slot], at, k + 1, n, lfn, sum)
  {
    var t' := t[at + k := slot];
    assert t'[at + k + 1..] == t[at + k..][1..] == t0[at + k..][1..] == t0[at + k + 1..];
    assert t'[..at] == t[..at];
  }

  // The run complete, the entry written behind it: the item stands in the table.
  lemma RunWritten(t0: seq<Slot>, t: seq<Slot>, at: nat, lfn: seq<Wchar>, entry: Slot)
    requires IsEntry(entry) && (lfn != [] ==> IsName(lfn))
    requires var n := if lfn == [] then 0 else Segments(lfn); PartRun(t0, t, at, n, n, lfn, SumOf(entry, 11))
    ensures var n := if lfn == [] then 0 else Segments(lfn); Written(t0, t[at + n := entry], at, Named(lfn, entry))
  {
    var n := if lfn == [] then 0 else Segments(lfn);
    var t', item := t[at + n := entry], Named(lfn, entry);
    var run := t'[at..at + n + 1];
    assert t'[..at] == t[..at];
    assert t'[at + n + 1..] == t[at + n..][1..] == t0[at + n..][1..] == t0[at + n + 1..];
    forall k | 0 <= k < n ensures IsSegment(run[..n][k], lfn, n - k, SumOf(entry, 11)) {
      assert run[..n][k] == t[at + k];
    }
  }

  // A table stretched by zero slots has the same items.
  lemma {:induction false} Stretched(slots: seq<Slot>, more: seq<Slot>, items: seq<Item>)
    requires IsTable(slots, items) && forall k :: 0 <= k < |more| ==> more[k][0] == 0
    ensures IsTable(slots + more, items)
    decreases |items|
  {
    if items == [] {
    } else {
      var n := Size(items[0]);
      assert (slots + more)[..n] == slots[..n] && (slots + more)[n..] == slots[n..] + more;
      Stretched(slots[n..], more, items[1..]);
    }
  }

  // At index i of the table, the last n slots passed were free, and no run of ne free slots lies in front.
  ghost predicate Passed(t: seq<Slot>, i: nat, n: nat, ne: nat) {
    && n <= i <= |t| && n < ne
    && (forall k :: i - n <= k < i ==> IsBlank(t[k])) && (n < i ==> !IsBlank(t[i - n - 1]))
    && NoRun(t, i, ne)
  }

  ghost predicate NoRun(t: seq<Slot>, i: nat, ne: nat) {
    forall at {:trigger UsedIn(t, at, ne)} :: 0 <= at && at + ne <= i <= |t| ==> UsedIn(t, at, ne)
  }

  // A table that cannot get longer has no room for an object of the name, or there is no short name for it.
  ghost predicate NoPlaceIn(slots: seq<Slot>, items: seq<Item>, full: bool, name: seq<Wchar>) {
    (full && NoRun(slots, |slots|, SlotsFor(name))) || NoNumber(items, name)
  }

  ghost predicate UsedIn(t: seq<Slot>, at: nat, ne: nat) {
    exists k :: at <= k < at + ne && k < |t| && !IsBlank(t[k])
  }

  lemma PassUsed(t: seq<Slot>, i: nat, n: nat, ne: nat)
    requires Passed(t, i, n, ne) && i < |t| && !IsBlank(t[i])
    ensures Passed(t, i + 1, 0, ne)
  {
    forall at | 0 <= at && at + ne <= i + 1 ensures UsedIn(t, at, ne) {
      if at + ne == i + 1 {
        assert at <= i < at + ne;
      }
    }
  }

  lemma PassBlank(t: seq<Slot>, i: nat, n: nat, ne: nat)
    requires Passed(t, i, n, ne) && i < |t| && IsBlank(t[i])
    ensures n + 1 == ne ==> FreeRun(t, i - n, ne)
    ensures n + 1 < ne ==> Passed(t, i + 1, n + 1, ne)
  {
    if n + 1 < ne {
      forall at | 0 <= at && at + ne <= i + 1 ensures UsedIn(t, at, ne) {
        if at + ne == i + 1 {
          assert at <= i - n - 1 < at + ne && !IsBlank(t[i - n - 1]);
        }
      }
    }
  }

  lemma PassLonger(t: seq<Slot>, more: seq<Slot>, i: nat, n: nat, ne: nat)
    requires Passed(t, i, n, ne)
    ensures Passed(t + more, i, n, ne)
  {
    forall at | 0 <= at && at + ne <= i ensures UsedIn(t + more, at, ne) {
      assert UsedIn(t, at, ne);
      var k :| at <= k < at + ne && k < |t| && !IsBlank(t[k]);
      assert (t + more)[k] == t[k];
    }
  }
}
