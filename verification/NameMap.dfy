/** A directory as a map from names to entries: what registering objects keeps. */
module NameMap {
  import opened Bytes
  import opened CodePages
  import opened LongNames
  import opened ShortNames
  import opened Entries

  // The item answers to the name, long or short.
  ghost predicate Answers(item: Item, name: seq<Wchar>) {
    && item.Named?
    && ((item.lfn != [] && SameName(name, item.lfn) && |item.lfn| < MAX_LFN)
        || (!ShortOf(name).status.loss && item.entry[..11] == ShortOf(name).sfn))
  }

  function Total(items: seq<Item>): nat {
    if items == [] then 0 else Size(items[0]) + Total(items[1..])
  }

  ghost predicate SameSfn(a: Item, b: Item) {
    a.Named? && b.Named? && a.entry[..11] == b.entry[..11]
  }

  // A long name whose short name loses nothing is kept under just that short name.
  ghost predicate KeepsShort(item: Item) {
    item.Named? && item.lfn != [] && !ShortOf(item.lfn).status.loss ==> item.entry[..11] == ShortOf(item.lfn).sfn
  }

  // No name belongs to both items.
  ghost predicate Apart(a: Item, b: Item) {
    !SameSfn(a, b) && forall name: seq<Wchar> :: !(Answers(a, name) && Answers(b, name))
  }

  /** The invariant of a directory: all short names differ, and every name denotes at most one entry. */
  ghost predicate IsNameMap(items: seq<Item>) {
    && (forall k :: 0 <= k < |items| ==> KeepsShort(items[k]))
    && forall j, k :: 0 <= j < k < |items| ==> Apart(items[j], items[k])
  }

  ghost predicate AllGone(items: seq<Item>) {
    forall k :: 0 <= k < |items| ==> items[k] == Gone
  }

  /** The item dir_register makes for a name: with its long name, or without it where the short name shows it. */
  ghost predicate IsItemFor(item: Item, name: seq<Wchar>) {
    && item.Named? && IsEntry(item.entry) && item.entry[0] != DOT
    && item.lfn == (if ShortOf(name).status.noLfn then [] else name)
    && (!ShortOf(name).status.loss ==> item.entry[..11] == ShortOf(name).sfn)
    && (ShortOf(name).status.noLfn ==>
         item.entry[..11] == ShortOf(name).sfn && item.entry[12] == EntryOf(ShortOf(name))[12])
  }

  // No object has the short name.
  ghost predicate NoSuchShort(items: seq<Item>, sfn: seq<byte>) {
    forall k :: 0 <= k < |items| && items[k].Named? ==> items[k].entry[..11] != sfn
  }

  // dst is the numbered name gen_numname makes of short name src and the long name, for number n.
  ghost predicate IsNumberedName(dst: seq<byte>, src: seq<byte>, name: seq<Wchar>, n: nat) {
    |src| == 11 && |NumberTail(name, n)| <= 8 && IsNumbered(dst, src, NumberTail(name, n))
  }

  ghost predicate NumberTaken(items: seq<Item>, src: seq<byte>, name: seq<Wchar>, n: nat) {
    exists dst :: IsNumberedName(dst, src, name, n) && !NoSuchShort(items, dst)
  }

  // All numbered names below number n are taken.
  ghost predicate NumbersTaken(items: seq<Item>, src: seq<byte>, name: seq<Wchar>, n: nat) {
    forall k :: 1 <= k < n ==> NumberTaken(items, src, name, k)
  }

  // dst is the first numbered name that is not taken.
  ghost predicate FirstNumbered(items: seq<Item>, dst: seq<byte>, src: seq<byte>, name: seq<Wchar>) {
    NoSuchShort(items, dst) && exists n ::
      1 <= n < 100 && IsNumberedName(dst, src, name, n) && NumbersTaken(items, src, name, n)
  }

  // The name needs a numbered short name, and there is none left.
  ghost predicate NoNumber(items: seq<Item>, name: seq<Wchar>) {
    ShortOf(name).status.loss && NumbersTaken(items, ShortOf(name).sfn, name, 100)
  }

  // How many slots the object takes.
  ghost function SlotsFor(name: seq<Wchar>): nat {
    if ShortOf(name).status.noLfn then 1 else Segments(name) + 1
  }

  // The item is put in the place of removed slots, or at the end of the table.
  ghost predicate Inserted(items: seq<Item>, items': seq<Item>, a: seq<Item>, gone: seq<Item>, b: seq<Item>,
      item: Item) {
    && items == a + gone + b && AllGone(gone) && items' == a + [item] + b
    && (b == [] || Total(gone) == Size(item))
  }

  // The same, seen from the outside: the entry is slot number at.
  ghost predicate InsertedAt(items: seq<Item>, items': seq<Item>, item: Item, at: nat) {
    exists a, gone, b :: Inserted(items, items', a, gone, b, item) && at + 1 == Total(a) + Size(item)
  }

  // The search for a name finds the first item that answers to it.
  lemma LookupAnswers(item: Item, key: Key, name: seq<Wchar>)
    requires IsKeyOf(key, name)
    ensures LongMatch(item, key, name) || ShortMatch(item, key) <==> Answers(item, name)
  {
  }

  lemma {:induction false} LookupMiss(items: seq<Item>, i: nat, key: Key, name: seq<Wchar>)
    requires IsKeyOf(key, name)
    ensures Lookup(items, i, key, name) == Miss <==> forall k :: 0 <= k < |items| ==> !Answers(items[k], name)
    decreases |items|
  {
    if items == [] {
    } else {
      LookupAnswers(items[0], key, name);
      LookupMiss(items[1..], i + Size(items[0]), key, name);
      assert forall k :: 0 <= k < |items| ==> items[k] == if k == 0 then items[0] else items[1..][k - 1];
    }
  }

  lemma {:induction false} LookupAppend(a: seq<Item>, b: seq<Item>, i: nat, key: Key, name: seq<Wchar>)
    ensures Lookup(a + b, i, key, name)
            == if Lookup(a, i, key, name).Hit? then Lookup(a, i, key, name) else Lookup(b, i + Total(a), key, name)
    decreases |a|
  {
    if a == [] {
      assert a + b == b;
    } else {
      assert (a + b)[1..] == a[1..] + b;
      LookupAppend(a[1..], b, i + Size(a[0]), key, name);
    }
  }

  lemma {:induction false} LookupGone(gone: seq<Item>, i: nat, key: Key, name: seq<Wchar>)
    requires AllGone(gone)
    ensures Lookup(gone, i, key, name) == Miss
    decreases |gone|
  {
    if gone == [] {
    } else {
      LookupGone(gone[1..], i + Size(gone[0]), key, name);
    }
  }

  /** A new object's item and an old one never answer to the same name: the lookup of the new name failed, and the
      new short name was not there. */
  lemma NewIsApart(item: Item, name: seq<Wchar>, was: Item, other: seq<Wchar>)
    requires IsItemFor(item, name) && !Answers(was, name) && !SameSfn(item, was) && KeepsShort(was)
    ensures !(Answers(item, other) && Answers(was, other))
  {
    if Answers(item, other) && Answers(was, other) {
      if was.lfn != [] && SameName(other, was.lfn) {
        SameShort(other, was.lfn);
      }
      if item.lfn != [] && SameName(other, item.lfn) {
        SameShort(other, item.lfn);
      }
    }
  }

  /** Registering a name that was not there, under a short name that was not there, keeps the invariant. */
  lemma RegisterKeepsMap(items: seq<Item>, items': seq<Item>, a: seq<Item>, gone: seq<Item>, b: seq<Item>, item: Item,
      name: seq<Wchar>)
    requires IsNameMap(items) && Inserted(items, items', a, gone, b, item) && IsItemFor(item, name)
    requires forall k :: 0 <= k < |items| ==> !Answers(items[k], name) && !SameSfn(item, items[k])
    ensures IsNameMap(items')
  {
    forall k | 0 <= k < |items'| ensures KeepsShort(items'[k]) {
      if k < |a| {
        assert items'[k] == items[k];
      } else if k > |a| {
        assert items'[k] == items[k - 1 + |gone|];
      }
    }
    forall j, k | 0 <= j < k < |items'| ensures Apart(items'[j], items'[k]) {
      var j', k' := if j < |a| then j else j - 1 + |gone|, if k < |a| then k else k - 1 + |gone|;
      assert j != |a| ==> items'[j] == items[j'];
      assert k != |a| ==> items'[k] == items[k'];
      if j == |a| || k == |a| {
        var o := if j == |a| then items[k'] else items[j'];
        forall other: seq<Wchar> ensures !(Answers(item, other) && Answers(o, other)) {
          NewIsApart(item, name, o, other);
        }
      }
    }
  }

  /** The new name is found, at the new entry, unless it has all of 255 characters. */
  lemma RegisterFound(items: seq<Item>, items': seq<Item>, a: seq<Item>, gone: seq<Item>, b: seq<Item>, item: Item,
                      name: seq<Wchar>, key: Key)
    requires Inserted(items, items', a, gone, b, item) && IsItemFor(item, name) && IsName(name) && IsKeyOf(key, name)
    requires Lookup(items, 0, key, name) == Miss
    ensures Lookup(items', 0, key, name)
            == if |name| < MAX_LFN then Hit(Total(a) + Size(item) - 1, if item.lfn != [] then Total(a) else NO_LFN)
              else Miss
  {
    hide LongMatch, ShortMatch, ShortOf;
    LookupMiss(items, 0, key, name);
    assert forall k :: 0 <= k < |a| ==> a[k] == items[k];
    assert forall k :: 0 <= k < |b| ==> b[k] == items[|a| + |gone| + k];
    LookupMiss(a, 0, key, name);
    LookupAppend(a, [item] + b, 0, key, name);
    assert a + [item] + b == a + ([item] + b);
    NewFirst(item, b, Total(a), name, key);
  }

  // The search on the new item and those behind it.
  lemma NewFirst(item: Item, b: seq<Item>, i: nat, name: seq<Wchar>, key: Key)
    requires IsItemFor(item, name) && IsName(name) && IsKeyOf(key, name) && forall k :: 0 <= k < |b| ==>
               !Answers(b[k], name)
    ensures Lookup([item] + b, i, key, name)
            == if |name| < MAX_LFN then Hit(i + Size(item) - 1, if item.lfn != [] then i else NO_LFN) else Miss
  {
    var all := [item] + b;
    assert all[0] == item && all[1..] == b;
    if |name| == MAX_LFN {
      LongLoses(name);
      assert !Answers(item, name);
      LookupMiss(all, i, key, name);
    } else {
      assert SameName(name, name);
    }
  }

  /** Every name that was found before is found at the same entry. */
  lemma RegisterKeepsOthers(items: seq<Item>, items': seq<Item>, a: seq<Item>, gone: seq<Item>, b: seq<Item>,
      item: Item,
                            name: seq<Wchar>, key: Key, other: seq<Wchar>)
    requires IsNameMap(items) && Inserted(items, items', a, gone, b, item) && IsItemFor(item, name)
             && IsKeyOf(key, other)
    requires forall k :: 0 <= k < |items| ==> !Answers(items[k], name) && !SameSfn(item, items[k])
    requires Lookup(items, 0, key, other).Hit?
    ensures Lookup(items', 0, key, other) == Lookup(items, 0, key, other)
  {
    LookupMiss(items, 0, key, other);
    var k :| 0 <= k < |items| && Answers(items[k], other);
    NewIsApart(item, name, items[k], other);
    LookupAnswers(item, key, other);
    LookupInserted(items, items', a, gone, b, item, key, other);
  }

  // An item that does not match is not noticed.
  lemma LookupInserted(items: seq<Item>, items': seq<Item>, a: seq<Item>, gone: seq<Item>, b: seq<Item>, item: Item,
                       key: Key, other: seq<Wchar>)
    requires Inserted(items, items', a, gone, b, item) && !LongMatch(item, key, other) && !ShortMatch(item, key)
    ensures Lookup(items', 0, key, other) == Lookup(items, 0, key, other)
  {
    assert items == a + (gone + b) && items' == a + ([item] + b);
    LookupAppend(a, gone + b, 0, key, other);
    LookupAppend(a, [item] + b, 0, key, other);
    LookupAppend(gone, b, Total(a), key, other);
    LookupGone(gone, Total(a), key, other);
    assert ([item] + b)[0] == item && ([item] + b)[1..] == b;
  }

  // A name of more than twelve characters does not fit into a short one.
  ghost predicate Counted(di: nat, st: Scan) {
    if st.ni == 8 then st.si == st.i <= 8 else st.ni == 11 && di <= 9 && st.si == di + (st.i - 8) && 8 <= st.i <= 11
  }

  lemma TurnCounts(di: nat, st: Scan, w: Wchar, c: byte)
    requires |st.sfn| == 11 && Counted(di, st) && !Turn(di, st.(si := st.si + 1), w, c).loss
    ensures Counted(di, Turn(di, st.(si := st.si + 1), w, c))
  {
  }

  lemma {:induction false} FinishCounts(name: seq<Wchar>, di: nat, st: Scan)
    requires ScanOk(name, st) && di <= |name| && Counted(di, st) && !st.done && !Finish(name, di, st).loss
    ensures |name| <= 12
    decreases 11 - st.ni, |name| - st.si
  {
    if st.si < |name| {
      TurnCounts(di, st, name[st.si], ToOem(name[st.si]));
      FinishCounts(name, di, Turn(di, st.(si := st.si + 1), name[st.si], ToOem(name[st.si])));
    }
  }

  lemma LongLoses(name: seq<Wchar>)
    requires 12 < |name|
    ensures ShortOf(name).status.loss
  {
    var di, st := LastDot(name, |name|), Start(name);
    if !Finish(name, di, st).loss {
      FinishCounts(name, di, st);
    }
  }
}
