/** What changing an entry behind its name does to a directory: nothing to any name. */
module EntryEdits {
  import opened Bytes
  import opened LongNames
  import opened ShortNames
  import opened Entries
  import opened NameMap
  import opened TableEdits

  // The entry keeps its short name and the flags of its cases.
  ghost predicate SameHead(e: Slot, e': Slot) {
    IsEntry(e) && IsEntry(e') && e'[..11] == e[..11] && e'[12] == e[12]
  }

  // The items are the same but for what lies behind the name in one entry.
  ghost predicate Edited(items: seq<Item>, items': seq<Item>, a: seq<Item>, item: Item, item': Item, b: seq<Item>) {
    && items == a + [item] + b && items' == a + [item'] + b
    && item.Named? && item'.Named? && item'.lfn == item.lfn && SameHead(item.entry, item'.entry)
  }

  // The same, seen from the outside: the entry is slot number at.
  ghost predicate EditedAt(items: seq<Item>, items': seq<Item>, at: nat) {
    exists a, item, item', b :: Edited(items, items', a, item, item', b) && at + 1 == Total(a) + Size(item)
  }

  /** The entry as f_open completes it: no attribute, and the creation time. */
  function Fresh(entry: Slot, tim: nat): Slot {
    StDword(entry[11 := 0], 14, tim)
  }

  // The entry of a new file: nothing behind the name but the flags of its cases and the creation time.
  ghost predicate IsFresh(entry: Slot, tim: nat) {
    entry[11] == entry[13] == 0 && entry[14..18] == DwordBytes(tim) && entry[18..] == Zero(14)
  }

  lemma FreshEntry(s: ShortName, tim: nat)
    requires |s.sfn| == 11 && IsEntry(EntryOf(s))
    ensures SameHead(EntryOf(s), Fresh(EntryOf(s), tim)) && IsFresh(Fresh(EntryOf(s), tim), tim)
  {
    var e, e' := EntryOf(s), Fresh(EntryOf(s), tim);
    assert forall k :: 0 <= k < 14 ==> e'[k] == e[k];
    assert e'[18..] == Zero(14);
  }

  lemma EditedItem(slots: seq<Slot>, item: Item, item': Item)
    requires IsItem(slots, item) && Edited([item], [item'], [], item, item', [])
    ensures slots[|slots| - 1] == item.entry && IsItem(slots[|slots| - 1 := item'.entry], item')
  {
    var n := |slots| - 1;
    SumOfSame(item.entry, item'.entry, 11);
    assert slots[n := item'.entry][..n] == slots[..n];
  }

  lemma EditedFront(slots: seq<Slot>, items: seq<Item>, item: Item, item': Item, b: seq<Item>)
    requires IsTable(slots, items) && Edited(items, [item'] + b, [], item, item', b)
    ensures Size(item) <= |slots| && slots[Size(item) - 1] == item.entry
    ensures IsTable(slots[Size(item) - 1 := item'.entry], [item'] + b)
  {
    var n := Size(item);
    assert [] + [item] + b == [item] + b && items[1..] == b;
    EditedItem(slots[..n], item, item');
    var slots' := slots[n - 1 := item'.entry];
    assert slots'[..n] == slots[..n][n - 1 := item'.entry] && slots'[n..] == slots[n..];
    ConsItem(slots', item', b);
  }

  /** The table with the entry's slot written over it. */
  lemma {:induction false} EditEntry(slots: seq<Slot>, items: seq<Item>, items': seq<Item>, a: seq<Item>, item: Item,
      item': Item, b: seq<Item>)
    requires IsTable(slots, items) && Edited(items, items', a, item, item', b)
    ensures var at := Total(a) + Size(item) - 1;
            at < |slots| && slots[at] == item.entry && IsTable(slots[at := item'.entry], items')
    decreases |a|
  {
    hide IsTable, IsItem;
    if a == [] {
      assert items' == [item'] + b;
      EditedFront(slots, items, item, item', b);
    } else {
      var n := Size(a[0]);
      var rest, behind, behind' := a[1..], a[1..] + [item] + b, a[1..] + [item'] + b;
      EditedTail(items, items', a, item, item', b);
      TableFirst(slots, items);
      EditEntry(slots[n..], behind, behind', rest, item, item', b);
      EditBehind(slots, a[0], behind', n + Total(rest) + Size(item) - 1, item'.entry);
    }
  }

  lemma EditedTail(items: seq<Item>, items': seq<Item>, a: seq<Item>, item: Item, item': Item, b: seq<Item>)
    requires Edited(items, items', a, item, item', b) && a != []
    ensures items == [a[0]] + (a[1..] + [item] + b) && items' == [a[0]] + (a[1..] + [item'] + b)
    ensures items[0] == a[0] && items[1..] == a[1..] + [item] + b
    ensures Edited(a[1..] + [item] + b, a[1..] + [item'] + b, a[1..], item, item', b)
  {
    assert a == [a[0]] + a[1..];
  }

  // A slot written behind the first item.
  lemma EditBehind(slots: seq<Slot>, first: Item, behind: seq<Item>, at: nat, entry: Slot)
    requires Size(first) <= at < |slots| && IsItem(slots[..Size(first)], first)
    requires IsTable(slots[Size(first)..][at - Size(first) := entry], behind)
    ensures IsTable(slots[at := entry], [first] + behind)
  {
    var n, slots' := Size(first), slots[at := entry];
    assert slots'[..n] == slots[..n] && slots'[n..] == slots[n..][at - n := entry];
    ConsItem(slots', first, behind);
  }

  // Every lookup goes as before.
  lemma EditLookup(items: seq<Item>, items': seq<Item>, a: seq<Item>, item: Item, item': Item, b: seq<Item>, key: Key,
      name: seq<Wchar>)
    requires Edited(items, items', a, item, item', b)
    ensures Lookup(items', 0, key, name) == Lookup(items, 0, key, name)
  {
    assert items == a + ([item] + b) && items' == a + ([item'] + b);
    LookupAppend(a, [item] + b, 0, key, name);
    LookupAppend(a, [item'] + b, 0, key, name);
    assert ([item] + b)[1..] == b && ([item'] + b)[1..] == b;
  }

  lemma EditMap(items: seq<Item>, items': seq<Item>, a: seq<Item>, item: Item, item': Item, b: seq<Item>)
    requires Edited(items, items', a, item, item', b) && IsNameMap(items)
    ensures IsNameMap(items')
  {
    hide ShortOf;
    assert forall k :: 0 <= k < |items'| ==> items'[k] == if k == |a| then item' else items[k];
    assert items[|a|] == item;
    forall j, k | 0 <= j < k < |items'| ensures NameMap.Apart(items'[j], items'[k]) {
      assert NameMap.Apart(items[j], items[k]);
      AnswersAlike(item, item');
    }
  }

  lemma AnswersAlike(item: Item, item': Item)
    requires item.Named? && item'.Named? && item'.lfn == item.lfn && SameHead(item.entry, item'.entry)
    ensures forall name {:trigger Answers(item', name)} :: Answers(item', name) <==> Answers(item, name)
  {
  }

  /** An entry changed behind its name: the table is in order, no name is lost or changes its entry, and the names stay
      unambiguous. */
  lemma EditKeepsAll(slots: seq<Slot>, items: seq<Item>, at: nat, entry: Slot) returns (items': seq<Item>)
    requires IsTable(slots, items) && IsNameMap(items) && IsObjectAt(items, at)
    requires at < |slots| ==> SameHead(slots[at], entry)
    ensures at < |slots| && IsTable(slots[at := entry], items') && IsNameMap(items') && EditedAt(items, items', at)
    ensures forall key: Key, name {:trigger Lookup(items', 0, key, name)} ::
              Lookup(items', 0, key, name) == Lookup(items, 0, key, name)
  {
    hide IsTable, IsNameMap, Lookup;
    var a, item, b :| SplitAt(items, at, a, item, b);
    TableReaches(slots, items, a, item, b);
    var item' := Named(item.lfn, entry);
    items' := a + [item'] + b;
    assert Edited(items, items', a, item, item', b);
    EditEntry(slots, items, items', a, item, item', b);
    EditMap(items, items', a, item, item', b);
    forall key: Key, name ensures Lookup(items', 0, key, name) == Lookup(items, 0, key, name) {
      EditLookup(items, items', a, item, item', b, key, name);
    }
  }

  ghost predicate SplitAt(items: seq<Item>, at: nat, a: seq<Item>, item: Item, b: seq<Item>) {
    items == a + [item] + b && item.Named? && at + 1 == Total(a) + Size(item)
  }

  // Slot number at is an object's entry.
  ghost predicate IsObjectAt(items: seq<Item>, at: nat) {
    exists a, item, b :: SplitAt(items, at, a, item, b)
  }

  lemma {:induction false} TableReaches(slots: seq<Slot>, items: seq<Item>, a: seq<Item>, item: Item, b: seq<Item>)
    requires IsTable(slots, items) && items == a + [item] + b && item.Named?
    ensures Total(a) + Size(item) <= |slots| && slots[Total(a) + Size(item) - 1] == item.entry && IsEntry(item.entry)
    decreases |a|
  {
    if a == [] {
      assert items[0] == item && slots[..Size(item)][Size(item) - 1] == slots[Size(item) - 1];
    } else {
      assert items[0] == a[0] && items[1..] == a[1..] + [item] + b;
      TableReaches(slots[Size(a[0])..], items[1..], a[1..], item, b);
    }
  }

  /** A hit of the lookup is an object's entry. */
  lemma {:induction false} HitIsObject(items: seq<Item>, i: nat, key: Key, name: seq<Wchar>)
    requires Lookup(items, i, key, name).Hit?
    ensures Lookup(items, i, key, name).index >= i && IsObjectAt(items, Lookup(items, i, key, name).index - i)
    decreases |items|
  {
    var at, first := Lookup(items, i, key, name).index, items[0];
    if LongMatch(first, key, name) || ShortMatch(first, key) {
      assert items == [] + [first] + items[1..];
      assert SplitAt(items, at - i, [], first, items[1..]);
    } else {
      HitIsObject(items[1..], i + Size(first), key, name);
      var a, item, b :| SplitAt(items[1..], at - i - Size(first), a, item, b);
      assert ([first] + a)[1..] == a;
      assert items == [first] + items[1..] == ([first] + a) + [item] + b;
      assert SplitAt(items, at - i, [first] + a, item, b);
    }
  }

  /** A new item whose entry is changed behind its name, as part of the table. */
  lemma EditNew(slots: seq<Slot>, items: seq<Item>, mid: seq<Item>, item: Item, at: nat, entry: Slot)
    returns (items': seq<Item>)
    requires IsTable(slots, mid) && InsertedAt(items, mid, item, at) && item.Named? && SameHead(item.entry, entry)
    ensures at < |slots| && slots[at] == item.entry && IsTable(slots[at := entry], items')
    ensures InsertedAt(items, items', Named(item.lfn, entry), at)
  {
    hide IsTable;
    var a, gone, b :| Inserted(items, mid, a, gone, b, item) && at + 1 == Total(a) + Size(item);
    var item' := Named(item.lfn, entry);
    items' := a + [item'] + b;
    assert Edited(mid, items', a, item, item', b);
    EditEntry(slots, mid, items', a, item, item', b);
    assert Inserted(items, items', a, gone, b, item');
  }
}
