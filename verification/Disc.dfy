/** Reads from an extracted disc: the walk over the file system table, the cache of open files, the new layout. */
module Disc {
  import opened Bytes
  import opened FstTree

  const FILECACHE_MAX := 5
  const SLASH: byte := 0x2F

  /** An entry of the file cache: no file, or an open one with the size and the start it had in the table. */
  datatype CacheSlot = Closed | Open(path: seq<byte>, size: nat, offset: nat)

  // A string of the name table.
  function CStr(names: seq<byte>, o: nat): seq<byte>
    decreases |names| - o
  {
    if o >= |names| || names[o] == 0 then [] else [names[o]] + CStr(names, o + 1)
  }

  function Asciify(s: seq<byte>): (r: seq<byte>)
    ensures |r| == |s| && forall k :: 0 <= k < |s| ==> r[k] == if s[k] < 0x20 || s[k] > 0x7F then 0x5F else s[k]
  {
    if s == [] then []
    else
      var c := s[|s| - 1];
      Asciify(s[..|s| - 1]) + [if c < 0x20 || c > 0x7F then 0x5F else c]
  }

  // The names of directories, with separators between them.
  function Joined(fe: seq<FEntry>, names: seq<byte>, dirs: seq<nat>): seq<byte>
    requires forall k :: 0 <= k < |dirs| ==> dirs[k] < |fe|
  {
    if dirs == [] then []
    else
      var n := |dirs| - 1;
      Joined(fe, names, dirs[..n]) + (if n != 0 then [SLASH] else []) + CStr(names, fe[dirs[n]].nameOffset)
  }

  /** The path of file i below directories dirs: "files/", the directories and the name. */
  function PathText(fe: seq<FEntry>, names: seq<byte>, game: seq<byte>, dirs: seq<nat>, i: nat): seq<byte>
    requires i < |fe| && forall k :: 0 <= k < |dirs| ==> dirs[k] < |fe|
  {
    Asciify(game + [0x66, 0x69, 0x6C, 0x65, 0x73, 0x2F] + Joined(fe, names, dirs) + (if dirs != [] then [SLASH] else [])
            + CStr(names, fe[i].nameOffset))
  }

  // The word offset lies inside the file's extent.
  predicate Covers(e: FEntry, offset: nat) {
    !e.isDir && e.offset <= offset && (offset - e.offset) * 4 < e.length
  }

  // At most n bytes of a file from o on.
  function Part(content: seq<byte>, o: nat, n: nat): seq<byte> {
    if o >= |content| then [] else if n <= |content| - o then content[o..o + n] else content[o..]
  }

  // ((Length) + 31) & ~31 in 32 bits.
  function Round32(n: nat): nat {
    (n + 31) % 0x1_0000_0000 / 32 * 32
  }

  // A length rounded up to 32 bytes.
  function Align(n: nat): (r: nat)
    ensures n <= r < n + 32 && r % 32 == 0
  {
    (n + 31) / 32 * 32
  }

  lemma RoundUp(n: nat)
    requires n < 0x1_0000_0000
    ensures if n <= 0xFFFF_FFE0 then Round32(n) == Align(n) else Round32(n) == 0
  {
  }

  // Reading more than was asked for does not change what was asked for.
  lemma PartOfPart(content: seq<byte>, o: nat, n: nat, m: nat)
    requires n <= m
    ensures Part(Part(content, o, m), 0, n) == Part(content, o, n)
  {
  }

  /** A table in order: a tree in preorder, not nested deeper than the stack allows. */
  ghost predicate TableValid(fe: seq<FEntry>, tree: Forest) {
    && |fe| == 1 + Size(tree) && fe[0].isDir && Encodes(fe, tree, 1) && Depth(tree) <= 15
  }

  ghost function PathOf(fe: seq<FEntry>, names: seq<byte>, game: seq<byte>, tree: Forest, i: nat): seq<byte>
    requires TableValid(fe, tree) && 1 <= i < |fe|
  {
    WhereDirsEnd(fe, tree, 1, i);
    PathText(fe, names, game, Ancestors(tree, 1, i), i)
  }

  // The stack of the walk: the first level places of Entry, with the ends of those directories in LEntry.
  ghost predicate IsStack(entry: array<nat>, lentry: array<nat>, level: nat, fe: seq<FEntry>, s: seq<nat>)
    reads entry, lentry
  {
    && entry.Length == lentry.Length == 16 && entry != lentry && level == |s| <= 16 && entry[..level] == s
    && forall k :: 0 <= k < level ==> s[k] < |fe| && lentry[k] == fe[s[k]].length
  }

  // The popping loop at the top of both walks. The guard level > 0 inside the loop is not in the source.
  method LeaveDirs(entry: array<nat>, lentry: array<nat>, level0: nat, i: nat, ghost fe: seq<FEntry>,
      ghost tree: Forest) returns (level: nat)
    requires TableValid(fe, tree) && 1 <= i < |fe|
    requires IsStack(entry, lentry, level0, fe, Ancestors(tree, 1, i) + Closing(tree, 1, i))
    ensures IsStack(entry, lentry, level, fe, Ancestors(tree, 1, i)) && level <= level0
  {
    WhereDirsEnd(fe, tree, 1, i);
    ghost var a, c := Ancestors(tree, 1, i), Closing(tree, 1, i);
    level := level0;
    while level > 0 && lentry[level - 1] == i
      invariant |a| <= level <= level0 && entry[..level] == (a + c)[..level]
    {
      level := level - 1;
    }
    assert (a + c)[..|a|] == a;
  }

  // The pushing branch of both walks.
  method EnterDir(entry: array<nat>, lentry: array<nat>, level0: nat, i: nat, next: nat, ghost fe: seq<FEntry>,
      ghost s: seq<nat>)
    returns (level: nat)
    requires i < |fe| && next == fe[i].length && IsStack(entry, lentry, level0, fe, s) && level0 < 16
    modifies entry, lentry
    ensures IsStack(entry, lentry, level, fe, s + [i]) && level == level0 + 1
  {
    entry[level0] := i;
    lentry[level0] := next;
    level := level0 + 1;
    assert entry[..level] == entry[..level0] + [i];
  }

  // The directories in one turn of both walks: those that end are left, entry i is entered if it is one. A file
  // finds the directories that enclose it on the stack.
  method WalkStep(entry: array<nat>, lentry: array<nat>, level0: nat, i: nat, isDir: bool, next: nat,
      ghost fe: seq<FEntry>,
                  ghost tree: Forest) returns (level: nat)
    requires TableValid(fe, tree) && 1 <= i < |fe| && isDir == fe[i].isDir && next == fe[i].length
    requires IsStack(entry, lentry, level0, fe, Ancestors(tree, 1, i) + Closing(tree, 1, i))
    modifies entry, lentry
    ensures IsStack(entry, lentry, level, fe, Ancestors(tree, 1, i + 1) + Closing(tree, 1, i + 1))
    ensures !isDir ==> IsStack(entry, lentry, level, fe, Ancestors(tree, 1, i))
  {
    WhereDirsEnd(fe, tree, 1, i);
    StackStep(fe, tree, 1, i);
    StackDepth(fe, tree, 1, i);
    level := LeaveDirs(entry, lentry, level0, i, fe, tree);
    if isDir {
      if next == i + 1 {
        return;
      }
      level := EnterDir(entry, lentry, level, i, next, fe, Ancestors(tree, 1, i));
      if level > 15 {
        assert false;
      }
    }
  }

  // No file in front of entry i covers the word offset.
  ghost predicate NotBefore(fe: seq<FEntry>, i: nat, offset: nat) {
    forall k :: 1 <= k < i && k < |fe| ==> !Covers(fe[k], offset)
  }

  /** The extents of files do not overlap: a word offset lies in at most one of them. */
  ghost predicate Apart(fe: seq<FEntry>) {
    forall i, j, offset: nat {:trigger Covers(fe[i], offset), Covers(fe[j], offset)} ::
      1 <= i < j < |fe| && Covers(fe[i], offset) ==> !Covers(fe[j], offset)
  }

  /** The room the files in front of entry i take up. */
  function Laid(fe: seq<FEntry>, i: nat): (r: nat)
    requires i <= |fe|
    ensures r % 32 == 0
  {
    if i == 0 then 0 else Laid(fe, i - 1) + if fe[i - 1].isDir then 0 else Align(fe[i - 1].length)
  }

  /** The files lie one behind the other, in the order of the table, each rounded up to 32 bytes, from word offset base
      on. */
  ghost predicate IsLayout(fe: seq<FEntry>, base: nat) {
    forall i {:trigger Laid(fe, i)} :: 0 <= i < |fe| && !fe[i].isDir ==> fe[i].offset * 4 == base * 4 + Laid(fe, i)
  }

  lemma {:induction false} LaidMonotone(fe: seq<FEntry>, i: nat, j: nat)
    requires i < j <= |fe| && !fe[i].isDir
    ensures Laid(fe, i) + Align(fe[i].length) <= Laid(fe, j)
    decreases j
  {
    if i + 1 < j {
      LaidMonotone(fe, i, j - 1);
    }
  }

  /** In a layout the extents are apart, in order, and every start is a whole number of 32-byte blocks behind the
      first. */
  lemma LayoutApart(fe: seq<FEntry>, base: nat)
    requires IsLayout(fe, base)
    ensures Apart(fe)
    ensures forall i :: 0 <= i < |fe| && !fe[i].isDir ==>
              fe[i].offset >= base && (fe[i].offset * 4 - base * 4) % 32 == 0
    ensures forall i, j :: 0 <= i < j < |fe| && !fe[i].isDir && !fe[j].isDir ==>
              fe[i].offset * 4 + fe[i].length <= fe[j].offset * 4
  {
    forall i, j | 0 <= i < j < |fe| && !fe[i].isDir && !fe[j].isDir
      ensures fe[i].offset * 4 + fe[i].length <= fe[j].offset * 4
    {
      LaidMonotone(fe, i, j);
      assert fe[i].offset * 4 == base * 4 + Laid(fe, i) && fe[j].offset * 4 == base * 4 + Laid(fe, j);
    }
    forall i | 0 <= i < |fe| && !fe[i].isDir
      ensures fe[i].offset >= base && (fe[i].offset * 4 - base * 4) % 32 == 0
    {
      assert fe[i].offset * 4 == base * 4 + Laid(fe, i);
    }
  }

  // The tables have the same tree and the same names.
  ghost predicate SameTree(fe: seq<FEntry>, fe': seq<FEntry>) {
    && |fe| == |fe'|
    && forall k :: 0 <= k < |fe| ==>
       fe'[k].isDir == fe[k].isDir && fe'[k].nameOffset == fe[k].nameOffset && (fe[k].isDir ==> fe'[k] == fe[k])
  }

  lemma {:induction false} SameEncoding(fe: seq<FEntry>, fe': seq<FEntry>, f: Forest, at: nat)
    requires SameTree(fe, fe') && Encodes(fe, f, at)
    ensures Encodes(fe', f, at)
  {
    match f
    case Nil =>
    case FileNode(rest) => SameEncoding(fe, fe', rest, at + 1);
    case DirNode(inner, rest) =>
      SameEncoding(fe, fe', inner, at + 1);
      SameEncoding(fe, fe', rest, at + 1 + Size(inner));
  }

  lemma {:induction false} SameJoined(fe: seq<FEntry>, fe': seq<FEntry>, names: seq<byte>, dirs: seq<nat>)
    requires SameTree(fe, fe') && forall k :: 0 <= k < |dirs| ==> dirs[k] < |fe|
    ensures Joined(fe, names, dirs) == Joined(fe', names, dirs)
  {
    if dirs == [] {
    } else {
      SameJoined(fe, fe', names, dirs[..|dirs| - 1]);
    }
  }

  lemma SamePaths(fe: seq<FEntry>, fe': seq<FEntry>, names: seq<byte>, game: seq<byte>, tree: Forest, i: nat)
    requires TableValid(fe, tree) && SameTree(fe, fe') && 1 <= i < |fe|
    ensures TableValid(fe', tree) && PathOf(fe', names, game, tree, i) == PathOf(fe, names, game, tree, i)
  {
    SameEncoding(fe, fe', tree, 1);
    WhereDirsEnd(fe, tree, 1, i);
    SameJoined(fe, fe', names, Ancestors(tree, 1, i));
  }

  lemma {:induction false} LaidSame(fe: seq<FEntry>, fe': seq<FEntry>, i: nat)
    requires i <= |fe| && i <= |fe'| && forall k :: 0 <= k < i ==> fe'[k] == fe[k]
    ensures Laid(fe', i) == Laid(fe, i)
  {
    if i == 0 {
    } else {
      LaidSame(fe, fe', i - 1);
    }
  }

  // A word offset hits an open file of the cache.
  predicate Hits(slot: CacheSlot, offset: nat) {
    slot.Open? && slot.offset <= offset && (offset - slot.offset) * 4 < slot.size
  }

  function Words(n: nat): nat {
    (n + 3) / 4
  }

  // The slot's start and size, which are those its file once had, still suit the file's entry.
  predicate Suits(slot: CacheSlot, e: FEntry)
    requires slot.Open?
  {
    slot.size == 0 || (slot.offset == e.offset && Words(slot.size) <= Words(e.length))
  }

  // Some offset hits the slot, but lies outside the file's extent or is read from another place of it.
  ghost predicate Misreads(slot: CacheSlot, e: FEntry) {
    exists offset: nat :: Hits(slot, offset) && !(Covers(e, offset) && slot.offset == e.offset)
  }

  /** That is exactly when every offset that hits the slot lies in the file, at the place the slot reads from. */
  lemma SuitsWhen(slot: CacheSlot, e: FEntry)
    requires slot.Open? && !e.isDir
    ensures Suits(slot, e) <==> forall offset: nat :: Hits(slot, offset) ==>
              Covers(e, offset) && slot.offset == e.offset
    ensures Suits(slot, e) <==> !Misreads(slot, e)
  {
    if slot.size != 0 {
      var last := slot.offset + (Words(slot.size) - 1);
      assert Hits(slot, slot.offset) && Hits(slot, last);
      forall offset: nat | Suits(slot, e) && Hits(slot, offset) ensures Covers(e, offset) {
        assert offset - slot.offset < Words(slot.size);
      }
    }
  }

  // A table of two files in the root.
  function Swapped(o1: nat, n1: nat, o2: nat, n2: nat): seq<FEntry> {
    [FEntry(true, 0, 0, 3), FEntry(false, 0, o1, n1), FEntry(false, 2, o2, n2)]
  }

  class Drive {
    const names: seq<byte>
    const game: seq<byte>
    const fe: array<FEntry>
    // The files behind the paths.
    const files: map<seq<byte>, seq<byte>>
    const fc: array<CacheSlot>
    var fcEntry: nat
    ghost const tree: Forest

    ghost predicate TableOk()
      reads fe
    {
      TableValid(fe[..], tree)
    }

    ghost function FilePath(i: nat): seq<byte>
      requires TableOk() && 1 <= i < fe.Length
      reads fe
    {
      PathOf(fe[..], names, game, tree, i)
    }

    // The cache slot holds file i of the table, open.
    ghost predicate Holds(slot: CacheSlot, i: nat)
      requires TableOk()
      reads fe
    {
      && slot.Open? && 1 <= i < fe.Length && !fe[i].isDir && slot.path == FilePath(i) && slot.path in files
      && Suits(slot, fe[i])
    }

    /** A table without overlaps, and a cache of open files. */
    ghost predicate Ready()
      reads this, fe, fc
    {
      && TableOk() && Apart(fe[..]) && fc.Length == FILECACHE_MAX && fcEntry <= FILECACHE_MAX
      && forall k :: 0 <= k < FILECACHE_MAX ==> fc[k].Open? ==> fc[k].path in files
    }

    /** The cache holds nothing but open files of the table, and their slots suit their entries. */
    ghost predicate Valid()
      reads this, fe, fc
    {
      Ready() && forall k :: 0 <= k < FILECACHE_MAX ==> OfTable(fc[k])
    }

    // The first slot in front of slot k that the offset hits, or k.
    ghost function FirstHit(k: nat, offset: nat): (h: nat)
      requires k <= fc.Length
      reads fc
      ensures h <= k && (h < k ==> Hits(fc[h], offset))
      ensures forall j :: 0 <= j < h ==> !Hits(fc[j], offset)
    {
      if k == 0 then 0
      else if FirstHit(k - 1, offset) < k - 1 then FirstHit(k - 1, offset)
      else if Hits(fc[k - 1], offset) then k - 1 else k
    }

    ghost predicate OfTable(slot: CacheSlot)
      requires TableOk()
      reads fe
    {
      slot.Open? ==> exists i: nat :: Holds(slot, i)
    }

    constructor (names: seq<byte>, game: seq<byte>, fe: array<FEntry>, files: map<seq<byte>, seq<byte>>,
        ghost tree: Forest)
      requires TableValid(fe[..], tree) && Apart(fe[..])
      ensures Valid() && this.fe == fe && this.files == files && this.tree == tree && this.names == names
              && this.game == game
      ensures fresh(fc)
    {
      this.names, this.game, this.fe, this.files, this.tree := names, game, fe, files, tree;
      fc := new CacheSlot[FILECACHE_MAX](_ => Closed);
      fcEntry := 0;
    }

    // The path, put together from the stack as both walks do.
    method BuildPath(entry: array<nat>, level: nat, i: nat, ghost s: seq<nat>) returns (path: seq<byte>)
      requires i < fe.Length && level <= entry.Length && entry[..level] == s && forall k :: 0 <= k < level ==>
                 s[k] < fe.Length
      ensures path == PathText(fe[..], names, game, s, i)
    {
      ghost var base := game + [0x66, 0x69, 0x6C, 0x65, 0x73, 0x2F];
      path := game + [0x66, 0x69, 0x6C, 0x65, 0x73, 0x2F];
      var j := 0;
      while j < level
        invariant 0 <= j <= level && path == base + Joined(fe[..], names, s[..j])
      {
        assert s[..j + 1][..j] == s[..j];
        if j != 0 {
          path := path + [SLASH];
        }
        path := path + CStr(names, fe[entry[j]].nameOffset);
        j := j + 1;
      }
      assert s[..level] == s;
      if level != 0 {
        path := path + [SLASH];
      }
      path := Asciify(path + CStr(names, fe[i].nameOffset));
    }

    /** The walk of DVDLowRead: the first file whose extent holds the word offset, and its path; 0 if there is none. */
    method FindFile(offset: nat) returns (i: nat, path: seq<byte>)
      requires TableOk()
      ensures i == 0 ==> NotBefore(fe[..], fe.Length, offset)
      ensures i != 0 ==> i < fe.Length && Covers(fe[i], offset) && NotBefore(fe[..], i, offset) && path == FilePath(i)
    {
      hide Encodes;
      var entry, lentry := new nat[16], new nat[16];
      var level := 0;
      path := [];
      i := 1;
      NoneAtStart(tree, 1);
      while i < fe.Length
        invariant 1 <= i <= fe.Length && NotBefore(fe[..], i, offset) && fresh(entry) && fresh(lentry)
        invariant IsStack(entry, lentry, level, fe[..], Ancestors(tree, 1, i) + Closing(tree, 1, i))
      {
        level := WalkStep(entry, lentry, level, i, fe[i].isDir, fe[i].length, fe[..], tree);
        if !fe[i].isDir && Covers(fe[i], offset) {
          path := BuildPath(entry, level, i, Ancestors(tree, 1, i));
          return;
        }
        i := i + 1;
      }
      i := 0;
    }

    // Some file of the table covers the offset, and can be opened.
    ghost predicate Serveable(offset: nat)
      requires TableOk()
      reads fe
    {
      exists i: nat :: Serves(i, offset)
    }

    ghost predicate Serves(i: nat, offset: nat)
      requires TableOk()
      reads fe
    {
      1 <= i < fe.Length && Covers(fe[i], offset) && FilePath(i) in files
    }

    // The bytes file i has at the word offset.
    ghost predicate Delivers(data: seq<byte>, i: nat, offset: nat, length: nat)
      requires TableOk() && Serves(i, offset)
      reads fe
    {
      Part(data, 0, length) == Part(files[FilePath(i)], (offset - fe[i].offset) * 4, length)
    }

    /** The search of the cache: the first slot that is hit gives its bytes, whether or not the slot still suits the
        table. */
    method TryCache(offset: nat, length: nat) returns (hit: bool, data: seq<byte>)
      requires Ready() && length < 0x1_0000_0000
      ensures hit <==> FirstHit(FILECACHE_MAX, offset) < FILECACHE_MAX
      ensures hit ==> data == Cached(fc[FirstHit(FILECACHE_MAX, offset)], offset, length)
    {
      var k := 0;
      hit, data := false, [];
      while k < FILECACHE_MAX
        invariant 0 <= k <= FILECACHE_MAX && FirstHit(k, offset) == k
      {
        if fc[k].Open? && offset >= fc[k].offset {
          var nOffset := (offset - fc[k].offset) * 4;
          if nOffset < fc[k].size {
            HitStays(k, FILECACHE_MAX, offset);
            data := Part(files[fc[k].path], nOffset, Round32(length));
            return true, data;
          }
        }
        k := k + 1;
      }
    }

    // What a hit on the slot reads.
    ghost function Cached(slot: CacheSlot, offset: nat, length: nat): seq<byte>
      requires Hits(slot, offset) && slot.path in files
    {
      Part(files[slot.path], (offset - slot.offset) * 4, Round32(length))
    }

    lemma {:induction false} HitStays(k: nat, n: nat, offset: nat)
      requires k < n <= fc.Length && FirstHit(k, offset) == k && Hits(fc[k], offset)
      ensures FirstHit(n, offset) == k
      decreases n
    {
      if k + 1 < n {
        HitStays(k, n - 1, offset);
      }
    }

    // A hit on a slot that suits its file's entry reads from the one file at the offset.
    lemma HitServes(slot: CacheSlot, offset: nat) returns (i: nat)
      requires TableOk() && OfTable(slot) && Hits(slot, offset)
      ensures Serves(i, offset) && slot.path == FilePath(i) && slot.offset == fe[i].offset
    {
      i :| Holds(slot, i);
      SuitsWhen(slot, fe[i]);
      assert Serves(i, offset);
    }

    method PutSlot(k: nat, slot: CacheSlot)
      requires Ready() && k < FILECACHE_MAX && OfTable(slot)
      modifies fc
      ensures Ready() && fc[k] == slot && (old(Valid()) ==> Valid())
    {
      fc[k] := slot;
    }

    // Takes the next cache slot for file i.
    method Remember(i: nat, path: seq<byte>) returns (ok: bool)
      requires Ready() && 1 <= i < fe.Length && !fe[i].isDir && path == FilePath(i)
      modifies this`fcEntry, fc
      ensures Ready() && ok == (path in files) && (old(Valid()) ==> Valid())
    {
      if fcEntry >= FILECACHE_MAX {
        fcEntry := 0;
      }
      if fc[fcEntry] != Closed {
        PutSlot(fcEntry, Closed);
      }
      ok := path in files;
      if ok {
        var slot := Open(path, fe[i].length, fe[i].offset);
        assert Holds(slot, i);
        PutSlot(fcEntry, slot);
        fcEntry := fcEntry + 1;
      }
    }

    lemma NoneServes(offset: nat)
      requires TableOk() && NotBefore(fe[..], fe.Length, offset)
      ensures !Serveable(offset)
    {
      assert forall i :: 1 <= i < fe.Length ==> fe[..][i] == fe[i];
    }

    // The part of DVDLowRead behind the cache: walk, open, read exactly what is asked for.
    method ReadThrough(offset: nat, length: nat) returns (ok: bool, data: seq<byte>)
      requires Ready()
      modifies this`fcEntry, fc
      ensures Ready() && (ok <==> Serveable(offset)) && (old(Valid()) ==> Valid())
      ensures forall i: nat {:trigger Serves(i, offset)} :: Serves(i, offset) ==> Delivers(data, i, offset, length)
    {
      data := [];
      var i, path := FindFile(offset);
      if i == 0 {
        NoneServes(offset);
        return false, data;
      }
      ok := Remember(i, path);
      OnlyOne(i, offset);
      assert ok <==> Serves(i, offset);
      if ok {
        data := Part(files[path], (offset - fe[i].offset) * 4, length);
        PartOfPart(files[path], (offset - fe[i].offset) * 4, length, length);
      }
    }

    /** The file branch of DVDLowRead. The first slot that is hit gives its bytes, otherwise the walk does. With a
        cache that suits the table the first length bytes are those of the one file whose extent has the offset, and
        the read fails exactly if there is no such file to open. A length above 0xFFFFFFE0 wraps when it is rounded up,
        and a hit then reads nothing. */
    method LowRead(offset: nat, length: nat) returns (ok: bool, data: seq<byte>)
      requires Ready() && length < 0x1_0000_0000
      modifies this`fcEntry, fc
      ensures Ready() && (old(Valid()) ==> Valid() && Right(offset, length, ok, data))
      ensures var h := old(FirstHit(FILECACHE_MAX, offset));
              if h < FILECACHE_MAX then ok && data == Cached(old(fc[h]), offset, length)
              else (ok <==> Serveable(offset)) && forall i: nat {:trigger Serves(i, offset)} ::
                Serves(i, offset) ==> Delivers(data, i, offset, length)
      ensures old(FirstHit(FILECACHE_MAX, offset)) < FILECACHE_MAX && length > 0xFFFF_FFE0 ==> ok && data == []
    {
      RoundUp(length);
      ok, data := TryCache(offset, length);
      if !ok {
        ok, data := ReadThrough(offset, length);
        return;
      }
      ghost var slot := fc[FirstHit(FILECACHE_MAX, offset)];
      if Valid() {
        HitRight(slot, offset, length);
      }
    }

    // A hit on a slot of file i reads its bytes.
    lemma HitDelivers(slot: CacheSlot, i: nat, offset: nat, length: nat)
      requires TableOk() && Serves(i, offset) && Hits(slot, offset) && slot.path == FilePath(i)
      requires slot.offset == fe[i].offset && length <= 0xFFFF_FFE0
      ensures Delivers(Cached(slot, offset, length), i, offset, length)
    {
      hide FilePath, TableOk, Part, Round32;
      RoundUp(length);
      PartOfPart(files[slot.path], (offset - slot.offset) * 4, length, Round32(length));
    }

    // What a hit reads is right while the slot suits the table.
    lemma HitRight(slot: CacheSlot, offset: nat, length: nat)
      requires TableOk() && Apart(fe[..]) && OfTable(slot) && Hits(slot, offset) && slot.path in files
      requires length < 0x1_0000_0000
      ensures Right(offset, length, true, Cached(slot, offset, length))
    {
      var i := HitServes(slot, offset);
      OnlyOne(i, offset);
      if length <= 0xFFFF_FFE0 {
        HitDelivers(slot, i, offset, length);
      }
      hide TableOk, Apart, FilePath, OfTable, Cached, Delivers, Serves, Hits;
    }

    // What the result of a read has to be, with or without a cache.
    ghost predicate Right(offset: nat, length: nat, ok: bool, data: seq<byte>)
      requires TableOk()
      reads fe
    {
      (ok <==> Serveable(offset))
      && (length <= 0xFFFF_FFE0 ==> forall i: nat {:trigger Serves(i, offset)} :: Serves(i, offset) ==>
         Delivers(data, i, offset, length))
    }

    /** Any sequence of reads, through evictions and failed opens: every one gives what the walk alone would give. */
    method ReadAll(requests: seq<(nat, nat)>) returns (oks: seq<bool>, datas: seq<seq<byte>>)
      requires Valid() && forall k :: 0 <= k < |requests| ==> requests[k].1 < 0x1_0000_0000
      modifies this`fcEntry, fc
      ensures Valid() && |oks| == |datas| == |requests|
      ensures forall k :: 0 <= k < |requests| ==> Right(requests[k].0, requests[k].1, oks[k], datas[k])
    {
      hide Delivers, Covers, Serveable;
      oks, datas := [], [];
      while |oks| < |requests|
        invariant Valid() && |oks| == |datas| <= |requests|
        invariant forall k :: 0 <= k < |oks| ==> Right(requests[k].0, requests[k].1, oks[k], datas[k])
      {
        var ok, data := LowRead(requests[|oks|].0, requests[|oks|].1);
        oks, datas := oks + [ok], datas + [data];
      }
    }

    lemma OnlyOne(i: nat, offset: nat)
      requires TableOk() && Apart(fe[..]) && 1 <= i < fe.Length && Covers(fe[i], offset)
      ensures forall j: nat {:trigger Serves(j, offset)} :: Serves(j, offset) ==> j == i
    {
      forall j: nat | Serves(j, offset) ensures j == i {
        assert Covers(fe[..][i], offset) && Covers(fe[..][j], offset);
      }
    }

    // Finds the lowest start of a file.
    method LowestOffset() returns (low: nat)
      ensures forall k :: 0 <= k < fe.Length && !fe[k].isDir && fe[k].offset <= 0xFFFF_FFFF_FFFF_FFFF ==>
                low <= fe[k].offset
      ensures low == 0xFFFF_FFFF_FFFF_FFFF || exists k :: 0 <= k < fe.Length && !fe[k].isDir && fe[k].offset == low
    {
      low := 0xFFFF_FFFF_FFFF_FFFF;
      var j := 0;
      while j < fe.Length
        invariant 0 <= j <= fe.Length
        invariant forall k :: 0 <= k < j && !fe[k].isDir && fe[k].offset <= 0xFFFF_FFFF_FFFF_FFFF ==>
                    low <= fe[k].offset
        invariant low == 0xFFFF_FFFF_FFFF_FFFF || exists k :: 0 <= k < fe.Length && !fe[k].isDir && fe[k].offset == low
      {
        if !fe[j].isDir && fe[j].offset <= low {
          low := fe[j].offset;
        }
        j := j + 1;
      }
    }

    // The path of file k of a table, and whether it can be opened.
    ghost function PathIn(t: seq<FEntry>, k: nat): seq<byte>
      requires TableValid(t, tree) && 1 <= k < |t|
    {
      PathOf(t, names, game, tree, k)
    }

    // The room the files in front of entry i will take up with the sizes they have now.
    ghost function Room(t: seq<FEntry>, i: nat): nat
      requires TableValid(t, tree) && i <= |t|
    {
      if i <= 1 then 0
      else Room(t, i - 1) + if t[i - 1].isDir || PathIn(t, i - 1) !in files then 0 else Align(|files[PathIn(t, i - 1)]|)
    }

    lemma {:induction false} RoomMonotone(t: seq<FEntry>, i: nat, j: nat)
      requires TableValid(t, tree) && i <= j <= |t|
      ensures Room(t, i) <= Room(t, j)
      decreases j
    {
      if i < j {
        RoomMonotone(t, i, j - 1);
      }
    }

    ghost predicate AllOpen(t: seq<FEntry>, n: nat)
      requires TableValid(t, tree)
    {
      forall k :: 1 <= k < n && k < |t| && !t[k].isDir ==> PathIn(t, k) in files
    }

    // The new sizes and the new layout fit their fields.
    ghost predicate Fits(t: seq<FEntry>, low: nat)
      requires TableValid(t, tree)
    {
      && (forall k :: 1 <= k < |t| && !t[k].isDir && PathIn(t, k) in files ==> |files[PathIn(t, k)]| <= 0xFFFF_FFE0)
      && low * 4 + Room(t, |t|) < 0x4_0000_0000
    }

    ghost predicate IsLowest(t: seq<FEntry>, low: nat) {
      && 0 < low < 0x1_0000_0000
      && (forall k :: 0 <= k < |t| && !t[k].isDir ==> low <= t[k].offset)
      && exists k :: 0 <= k < |t| && !t[k].isDir && t[k].offset == low
    }

    // File k of the new table has its new size and its new start.
    ghost predicate Placed(t: seq<FEntry>, t': seq<FEntry>, k: nat, low: nat)
      requires TableValid(t, tree) && 1 <= k < |t| == |t'|
    {
      t[k].isDir || (PathIn(t, k) in files && t'[k].length == |files[PathIn(t, k)]|
        && t'[k].offset * 4 == low * 4 + Laid(t', k))
    }

    // The table with the files in front of entry i laid out anew; cur is where the next one goes.
    ghost predicate LaidOut(t: seq<FEntry>, t': seq<FEntry>, i: nat, low: nat, cur: nat)
      requires TableValid(t, tree)
    {
      && SameTree(t, t') && 1 <= i <= |t| && (forall k :: i <= k < |t| ==> t'[k] == t[k])
      && (forall k :: 1 <= k < i ==> Placed(t, t', k, low))
      && cur == low * 4 + Laid(t', i) && Laid(t', i) == Room(t, i)
    }

    lemma PlacedStill(t: seq<FEntry>, t': seq<FEntry>, u: seq<FEntry>, k: nat, low: nat)
      requires TableValid(t, tree) && 1 <= k < |t| == |t'| == |u| && Placed(t, t', k, low) && u[..k + 1] == t'[..k + 1]
      ensures Placed(t, u, k, low)
    {
      assert u[k] == u[..k + 1][k] && t'[k] == t'[..k + 1][k];
      forall j | 0 <= j < k ensures t'[j] == u[j] {
        assert u[j] == u[..k + 1][j] && t'[j] == t'[..k + 1][j];
      }
      LaidSame(t', u, k);
    }

    // One more file.
    lemma LaidOutMore(t: seq<FEntry>, t': seq<FEntry>, i: nat, low: nat, cur: nat, u: seq<FEntry>)
      requires TableValid(t, tree) && LaidOut(t, t', i, low, cur) && i < |t| && !t[i].isDir && PathIn(t, i) in files
      requires u == t'[i := FEntry(false, t[i].nameOffset, cur / 4, |files[PathIn(t, i)]|)]
      ensures LaidOut(t, u, i + 1, low, cur + Align(|files[PathIn(t, i)]|))
    {
      LaidSame(t', u, i);
      PlacedNew(t, u, i, low, cur);
      hide Ancestors, PathIn, Placed;
      forall k | 1 <= k < i ensures Placed(t, u, k, low) {
        assert u[..k + 1] == t'[..k + 1];
        PlacedStill(t, t', u, k, low);
      }
    }

    lemma PlacedNew(t: seq<FEntry>, u: seq<FEntry>, i: nat, low: nat, cur: nat)
      requires TableValid(t, tree) && 1 <= i < |t| == |u| && PathIn(t, i) in files && cur == low * 4 + Laid(u, i)
      requires u[i] == FEntry(false, t[i].nameOffset, cur / 4, |files[PathIn(t, i)]|)
      ensures Placed(t, u, i, low)
    {
      Quarters(low, Laid(u, i));
      hide Laid, PathIn, TableValid;
    }

    lemma Quarters(low: nat, n: nat)
      requires n % 32 == 0
      ensures (low * 4 + n) / 4 * 4 == low * 4 + n
    {
      assert n == 4 * (8 * (n / 32));
    }

    lemma LaidOutDir(t: seq<FEntry>, t': seq<FEntry>, i: nat, low: nat, cur: nat)
      requires TableValid(t, tree) && LaidOut(t, t', i, low, cur) && i < |t| && t[i].isDir
      ensures LaidOut(t, t', i + 1, low, cur)
    {
      assert Laid(t', i + 1) == Laid(t', i);
    }

    lemma StartLaidOut(t: seq<FEntry>, low: nat)
      requires TableValid(t, tree)
      ensures LaidOut(t, t, 1, low, low * 4) && AllOpen(t, 1)
    {
    }

    // The entries still to come are as they were.
    lemma SameEntry(t: seq<FEntry>, t': seq<FEntry>, i: nat, low: nat, cur: nat)
      requires TableValid(t, tree) && LaidOut(t, t', i, low, cur) && i < |t|
      ensures 1 <= i < |t'| == |t| && t'[i] == t[i]
    {
    }

    // The file branch of the loop of FSTRebuild.
    method PlaceFile(i: nat, path: seq<byte>, cur: nat, ghost t: seq<FEntry>, ghost low: nat)
      returns (ok: bool, cur': nat)
      requires TableValid(t, tree) && LaidOut(t, fe[..], i, low, cur) && i < |t| && !t[i].isDir && path == PathIn(t, i)
      requires Fits(t, low) && 0 < low
      modifies fe
      ensures ok <==> path in files
      ensures if ok then LaidOut(t, fe[..], i + 1, low, cur') else fe[..] == old(fe[..]) && cur' == cur
    {
      cur' := cur;
      if path !in files {
        return false, cur';
      }
      RoomMonotone(t, i, |t|);
      var size := |files[path]|;
      RoundUp(size);
      if cur' == 0 {
        assert false;
      }
      ghost var before := fe[..];
      fe[i] := FEntry(false, fe[i].nameOffset, cur' / 4 % 0x1_0000_0000, size);
      cur' := cur' + Round32(size);
      LaidOutMore(t, before, i, low, cur, fe[..]);
      ok := true;
    }

    /** FSTRebuild: every file gets its present size, and the files are laid out anew from the lowest old start on. It
        succeeds exactly if all of them can be opened. */
    method FstRebuild(ghost low: nat) returns (ok: bool)
      requires TableOk() && IsLowest(fe[..], low) && Fits(fe[..], low)
      requires forall k :: 0 <= k < fe.Length ==> fe[k].offset < 0x1_0000_0000
      modifies fe
      ensures ok <==> fe.Length <= 1000000 && AllOpen(old(fe[..]), fe.Length)
      ensures ok ==> SameTree(old(fe[..]), fe[..]) && IsRenewed(fe[..], low)
    {
      if fe.Length > 1000000 {
        return false;
      }
      ghost var t := fe[..];
      var entry, lentry := new nat[16], new nat[16];
      var level, i := 0, 1;
      var cur := LowestOffset();
      cur := cur * 4;
      NoneAtStart(tree, 1);
      StartLaidOut(t, low);
      ok := true;
      hide LaidOut, Encodes;
      while ok && i < fe.Length
        invariant 1 <= i <= fe.Length && fresh(entry) && fresh(lentry)
        invariant ok ==> LaidOut(t, fe[..], i, low, cur) && AllOpen(t, i)
        invariant ok ==> IsStack(entry, lentry, level, t, Ancestors(tree, 1, i) + Closing(tree, 1, i))
        invariant !ok ==> !AllOpen(t, fe.Length)
      {
        ok, level, cur := RebuildTurn(entry, lentry, level, i, cur, t, low);
        i := i + 1;
      }
      if ok {
        Rebuilt(t, fe[..], low, cur);
      }
    }

    // One turn of the loop of FSTRebuild.
    method RebuildTurn(entry: array<nat>, lentry: array<nat>, level0: nat, i: nat, cur: nat, ghost t: seq<FEntry>,
        ghost low: nat)
      returns (ok: bool, level: nat, cur': nat)
      requires TableValid(t, tree) && LaidOut(t, fe[..], i, low, cur) && AllOpen(t, i) && i < |t| && Fits(t, low)
               && 0 < low
      requires IsStack(entry, lentry, level0, t, Ancestors(tree, 1, i) + Closing(tree, 1, i))
      modifies fe, entry, lentry
      ensures ok ==> LaidOut(t, fe[..], i + 1, low, cur') && AllOpen(t, i + 1)
      ensures ok ==> IsStack(entry, lentry, level, t, Ancestors(tree, 1, i + 1) + Closing(tree, 1, i + 1))
      ensures !ok ==> !AllOpen(t, |t|)
    {
      ok, cur' := true, cur;
      SameEntry(t, fe[..], i, low, cur);
      level := WalkStep(entry, lentry, level0, i, fe[i].isDir, fe[i].length, t, tree);
      if fe[i].isDir {
        LaidOutDir(t, fe[..], i, low, cur);
      } else {
        var path := BuildPath(entry, level, i, Ancestors(tree, 1, i));
        SamePaths(t, fe[..], names, game, tree, i);
        ok, cur' := PlaceFile(i, path, cur, t, low);
      }
    }

    /** A table with the sizes the files have, laid out from word offset low on, no two extents overlapping. */
    ghost predicate IsRenewed(t: seq<FEntry>, low: nat) {
      && TableValid(t, tree) && IsLayout(t, low) && Apart(t)
      && forall k {:trigger PathIn(t, k)} :: 1 <= k < |t| && !t[k].isDir ==>
         PathIn(t, k) in files && t[k].length == |files[PathIn(t, k)]|
    }

    lemma Rebuilt(t: seq<FEntry>, t': seq<FEntry>, low: nat, cur: nat)
      requires TableValid(t, tree) && LaidOut(t, t', |t|, low, cur)
      ensures SameTree(t, t') && IsRenewed(t', low)
    {
      SameEncoding(t, t', tree, 1);
      forall k | 0 <= k < |t'| && !t'[k].isDir ensures t'[k].offset * 4 == low * 4 + Laid(t', k) {
        assert Placed(t, t', k, low);
      }
      LayoutApart(t', low);
      forall k | 1 <= k < |t| && !t'[k].isDir ensures PathIn(t', k) in files && t'[k].length == |files[PathIn(t', k)]| {
        SamePaths(t, t', names, game, tree, k);
        assert Placed(t, t', k, low);
      }
    }

    // The rooms of the new table are those the sizes of the files give.
    lemma {:induction false} LaidIsRoom(t: seq<FEntry>, t': seq<FEntry>, low: nat, i: nat)
      requires TableValid(t, tree) && SameTree(t, t') && IsRenewed(t', low) && 1 <= i <= |t|
      ensures Laid(t', i) == Room(t, i)
    {
      if i > 1 {
        LaidIsRoom(t, t', low, i - 1);
        var k := i - 1;
        SamePaths(t, t', names, game, tree, k);
        assert !t'[k].isDir ==> PathIn(t', k) in files && t'[k].length == |files[PathIn(t', k)]|;
      } else {
        assert Laid(t', 1) == Laid(t', 0);
      }
    }

    /** The slot will suit the entry file i of table t gets in a rebuild: it is empty, or its start is the new one and
        the file now has as many words as the slot or more. */
    ghost predicate WillSuit(slot: CacheSlot, t: seq<FEntry>, i: nat, low: nat)
      requires TableValid(t, tree) && 1 <= i < |t| && PathIn(t, i) in files
    {
      slot.Open? && (slot.size == 0 || (slot.offset * 4 == low * 4 + Room(t, i)
        && Words(slot.size) <= Words(|files[PathIn(t, i)]|)))
    }

    // The slot holds file i of table t.
    ghost predicate IsOf(slot: CacheSlot, t: seq<FEntry>, i: nat)
      requires TableValid(t, tree)
    {
      slot.Open? && 1 <= i < |t| && !t[i].isDir && slot.path == PathIn(t, i) && slot.path in files
    }

    lemma WillSuitIs(slot: CacheSlot, t: seq<FEntry>, t': seq<FEntry>, i: nat, low: nat)
      requires TableValid(t, tree) && SameTree(t, t') && IsRenewed(t', low) && IsOf(slot, t, i)
      ensures IsOf(slot, t', i) && (WillSuit(slot, t, i, low) <==> Suits(slot, t'[i]))
    {
      SamePaths(t, t', names, game, tree, i);
      LaidIsRoom(t, t', low, i);
      assert t'[i].offset * 4 == low * 4 + Laid(t', i) && t'[i].length == |files[PathIn(t', i)]|;
    }

    // A slot that can stay.
    ghost predicate CanStay(slot: CacheSlot, t: seq<FEntry>, low: nat)
      requires TableValid(t, tree)
    {
      slot.Open? ==> exists i: nat :: IsOf(slot, t, i) && WillSuit(slot, t, i, low)
    }

    lemma CanStayIs(slot: CacheSlot, t: seq<FEntry>, low: nat)
      requires TableValid(t, tree) && TableOk() && SameTree(t, fe[..]) && IsRenewed(fe[..], low)
      ensures OfTable(slot) <==> CanStay(slot, t, low)
    {
      assert SameTree(fe[..], t);
      if slot.Open? && OfTable(slot) {
        var i: nat :| Holds(slot, i);
        SamePaths(fe[..], t, names, game, tree, i);
        WillSuitIs(slot, t, fe[..], i, low);
        assert WillSuit(slot, t, i, low);
      }
      if slot.Open? && CanStay(slot, t, low) {
        var i: nat :| IsOf(slot, t, i) && WillSuit(slot, t, i, low);
        WillSuitIs(slot, t, fe[..], i, low);
        assert Holds(slot, i);
      }
    }

    /** A rebuild under a filled cache. The cache is right afterwards if and only if every slot will suit its file's
        new entry, as the table before, the slots and the sizes of the files tell. The slots that will not, and only
        they, are hit by a word offset outside the file's new extent, or read it from another place. */
    method RebuildLive(ghost low: nat) returns (ok: bool)
      requires Valid() && IsLowest(fe[..], low) && Fits(fe[..], low)
      requires forall k :: 0 <= k < fe.Length ==> fe[k].offset < 0x1_0000_0000
      modifies fe
      ensures ok <==> fe.Length <= 1000000 && AllOpen(old(fe[..]), fe.Length)
      ensures ok ==> SameTree(old(fe[..]), fe[..]) && IsRenewed(fe[..], low) && Ready()
      ensures ok ==> (Valid() <==> forall k :: 0 <= k < FILECACHE_MAX ==> CanStay(fc[k], old(fe[..]), low))
      ensures ok ==> forall k, i: nat :: 0 <= k < FILECACHE_MAX && IsOf(fc[k], old(fe[..]), i) ==>
                (Misreads(fc[k], fe[i]) <==> !WillSuit(fc[k], old(fe[..]), i, low))
    {
      ghost var t := fe[..];
      ok := FstRebuild(low);
      if ok {
        forall k | 0 <= k < FILECACHE_MAX ensures OfTable(fc[k]) <==> CanStay(fc[k], t, low) {
          CanStayIs(fc[k], t, low);
        }
        forall k, i: nat | 0 <= k < FILECACHE_MAX && IsOf(fc[k], t, i)
          ensures Misreads(fc[k], fe[i]) <==> !WillSuit(fc[k], t, i, low)
        {
          WillSuitIs(fc[k], t, fe[..], i, low);
          SuitsWhen(fc[k], fe[i]);
        }
      }
    }

    lemma SwappedFits(t: seq<FEntry>, one: seq<byte>, two: seq<byte>)
      requires TableValid(t, tree) && t == Swapped(0x108, 64, 0x100, 32) && one == PathIn(t, 1) && two == PathIn(t, 2)
      requires one in files && two in files && |files[one]| == 64 && |files[two]| == 32
      ensures IsLowest(t, 0x100) && Fits(t, 0x100) && AllOpen(t, 3)
    {
      hide PathIn, TableValid;
      assert t[2].offset == 0x100 && t[1].offset == 0x108;
      assert Room(t, 2) == 64;
      assert Room(t, 3) == 96;
    }

    lemma SwappedAfter(t: seq<FEntry>, t': seq<FEntry>, one: seq<byte>, two: seq<byte>)
      requires TableValid(t, tree) && t == Swapped(0x108, 64, 0x100, 32) && one == PathIn(t, 1) && two == PathIn(t, 2)
      requires one in files && two in files && |files[one]| == 64 && |files[two]| == 32
      requires SameTree(t, t') && IsRenewed(t', 0x100)
      ensures t' == Swapped(0x100, 64, 0x110, 32)
    {
      SamePaths(t, t', names, game, tree, 1);
      SamePaths(t, t', names, game, tree, 2);
      hide PathOf, TableValid;
      assert t'[1].length == |files[PathIn(t', 1)]| && t'[2].length == |files[PathIn(t', 2)]|;
      assert Laid(t', 1) == Laid(t', 0) && Laid(t', 2) == 64;
    }

    /** A read that goes wrong: file 1 lies behind file 2, the rebuild puts it in front. The slot of file 1 keeps the
        old start, which its new extent still has, and word offset 0x110, now the start of file 2, gives the last bytes
        of file 1. */
    method StaleRead(one: seq<byte>, two: seq<byte>) returns (ok: bool, data: seq<byte>)
      requires Valid() && fe[..] == Swapped(0x108, 64, 0x100, 32) && tree == FileNode(FileNode(Nil))
      requires one == FilePath(1) && two == FilePath(2) && one in files && two in files
      requires |files[one]| == 64 && |files[two]| == 32 && fc[0] == Open(one, 64, 0x108)
      modifies this`fcEntry, fc, fe
      ensures fe[..] == Swapped(0x100, 64, 0x110, 32) && Covers(fe[2], 0x110) && fe[2].offset == 0x110
      ensures ok && data == files[one][32..]
    {
      ghost var t := fe[..];
      SwappedFits(t, one, two);
      ok := FstRebuild(0x100);
      SwappedAfter(t, fe[..], one, two);
      assert fe[1] == fe[..][1] && fe[2] == fe[..][2];
      assert FirstHit(1, 0x110) == 0;
      HitStays(0, FILECACHE_MAX, 0x110);
      ok, data := LowRead(0x110, 32);
    }

    /** After a rebuild the search finds, for every word offset in a file's extent, exactly that file. The rebuild
        succeeds exactly if all files can be opened. */
    method RebuildAndFind(ghost low: nat, offset: nat) returns (ok: bool, found: nat)
      requires TableOk() && IsLowest(fe[..], low) && Fits(fe[..], low)
      requires forall k :: 0 <= k < fe.Length ==> fe[k].offset < 0x1_0000_0000
      modifies fe
      ensures ok <==> fe.Length <= 1000000 && AllOpen(old(fe[..]), fe.Length)
      ensures ok ==> SameTree(old(fe[..]), fe[..]) && IsRenewed(fe[..], low)
      ensures ok ==> forall i :: 1 <= i < fe.Length && Covers(fe[i], offset) ==> found == i
      ensures ok ==> (found == 0 <==> forall i :: 1 <= i < fe.Length ==> !Covers(fe[i], offset))
    {
      found := 0;
      ok := FstRebuild(low);
      if ok {
        var path;
        found, path := FindFile(offset);
        assert forall k :: 0 <= k < fe.Length ==> fe[..][k] == fe[k];
      }
    }
  }
}
