/** Installing titles: the contents they share are moved to /shared1, the others to the title's own directory. */
module SharedContent {
  import opened Bytes
  import opened ContentMap

  type Data = seq<byte>

  /** A content of a title to be installed; its file waits in /tmp. */
  datatype Content = Content(id: nat, shared: bool, optional: bool, hash: Hash)

  /** What the disk has left when a content is handled: whether there is a place for a new name in the directory the
      content goes to, and the number of free clusters. */
  datatype Room = Room(slot: bool, free: nat)

  /** What an installation reads and changes: whether content.map exists, and its bytes; the files /shared1/name.app;
      the files /tmp/id.app and whether there is a /tmp/title.tmd; the contents and the TMDs of the titles. owners
      remembers what was moved to a name, and for which hash. */
  datatype Store = Store(
    present: bool, file: seq<byte>, shared: map<seq<byte>, Data>, tmp: map<nat, Data>, tmpTmd: bool,
                         own: map<(nat, nat), Data>, tmds: set<nat>, owners: map<seq<byte>, (Hash, Data)>)

  /** What a content does to the result: nothing, a new value, the end of the loop, or the end of the call. */
  datatype Effect = Leaves | Sets(r: int) | Stops(r: int) | Quits(r: int)

  // The content has to be moved.
  ghost predicate Moves(s: Store, title: nat, c: Content) {
    if c.shared then s.present && !HasHash(s.file, c.hash) else (title, c.id) !in s.own
  }

  ghost function MoveResult(s: Store, c: Content, room: Room): int {
    Renamed(c.id in s.tmp, room.slot)
  }

  ghost function EffectOf(s: Store, title: nat, c: Content, room: Room): Effect {
    if !Moves(s, title, c) then if c.shared then Leaves else Sets(ES_SUCCESS)
    else if MoveResult(s, c, room) >= 0 then Sets(ES_SUCCESS)
    else if c.optional then Sets(if c.shared then MoveResult(s, c, room) else ES_SUCCESS)
    else if c.shared then Quits(MoveResult(s, c, room))
    else Stops(MoveResult(s, c, room))
  }

  // The content's file becomes the next shared one, and n bytes of its entry are written.
  ghost function Registered(s: Store, c: Content, n: nat): Store
    requires |s.file| < LIMIT && c.id in s.tmp && n <= ENTRY
  {
    var name := NextName(|s.file|);
    s.(file := s.file + NewEntry(|s.file|, c.hash)[..n], shared := s.shared[name := s.tmp[c.id]], tmp := s.tmp - {c.id},
       owners := s.owners[name := (c.hash, s.tmp[c.id])])
  }

  // The store behind one content.
  ghost function After(s: Store, title: nat, c: Content, room: Room, cluster: nat): (t: Store)
    requires |s.file| < LIMIT && 512 <= cluster
    ensures |t.file| < LIMIT && s.file <= t.file && t.present == s.present
  {
    if c.shared && !s.present then s
    else if !Moves(s, title, c) then s.(tmp := s.tmp - {c.id})
    else if MoveResult(s, c, room) < 0 then s
    else if c.shared then Registered(s, c, Takes(|s.file|, room.free, cluster))
    else s.(own := s.own[(title, c.id) := s.tmp[c.id]], tmp := s.tmp - {c.id})
  }

  /** A title's installation: what is put into /tmp for it first, its contents with the room the disk has for each, and
      whether there is a place for its TMD. */
  datatype Job = Job(
    title: nat, staged: map<nat, Data>, tmd: bool, contents: seq<Content>, rooms: seq<Room>, tmdSlot: bool)

  // The store behind the first n contents, if the loop gets that far.
  ghost function Behind(s: Store, job: Job, n: nat, cluster: nat): (t: Store)
    requires |s.file| < LIMIT && 512 <= cluster && n <= |job.contents| == |job.rooms|
    ensures |t.file| < LIMIT && s.file <= t.file && t.present == s.present
  {
    if n == 0 then s
    else After(Behind(s, job, n - 1, cluster), job.title, job.contents[n - 1], job.rooms[n - 1], cluster)
  }

  ghost function EffectAt(s: Store, job: Job, k: nat, cluster: nat): Effect
    requires |s.file| < LIMIT && 512 <= cluster && k < |job.contents| == |job.rooms|
  {
    EffectOf(Behind(s, job, k, cluster), job.title, job.contents[k], job.rooms[k])
  }

  predicate GoesOn(e: Effect) {
    e.Leaves? || e.Sets?
  }

  // How many contents the loop handles without ending.
  ghost function Handled(s: Store, job: Job, n: nat, cluster: nat): (k: nat)
    requires |s.file| < LIMIT && 512 <= cluster && n <= |job.contents| == |job.rooms|
    ensures n <= k <= |job.contents| && (k < |job.contents| ==> !GoesOn(EffectAt(s, job, k, cluster)))
    decreases |job.contents| - n
  {
    if n == |job.contents| || !GoesOn(EffectAt(s, job, n, cluster)) then n else Handled(s, job, n + 1, cluster)
  }

  // The value of r behind the first n contents.
  ghost function ResultAt(s: Store, job: Job, n: nat, cluster: nat): int
    requires |s.file| < LIMIT && 512 <= cluster && n <= |job.contents| == |job.rooms|
  {
    if n == 0 then ES_FATAL
    else
      var e := EffectAt(s, job, n - 1, cluster);
      if e.Leaves? then ResultAt(s, job, n - 1, cluster) else e.r
  }

  function Ids(cs: seq<Content>): set<nat> {
    set c | c in cs :: c.id
  }

  // The end of the call: the TMD, and the files that are left in /tmp.
  ghost function Finished(s: Store, job: Job, r: int): (Store, int) {
    var r' := if r == ES_SUCCESS then Renamed(s.tmpTmd, job.tmdSlot) else r;
    (s.(tmds := if r == r' == ES_SUCCESS then s.tmds + {job.title} else s.tmds, tmp := s.tmp - Ids(job.contents),
        tmpTmd := false), r')
  }

  /** The whole of ES_AddTitleFinish. */
  ghost function Installed(s: Store, job: Job, cluster: nat): (p: (Store, int))
    requires |s.file| < LIMIT && 512 <= cluster && |job.contents| == |job.rooms|
    ensures |p.0.file| < LIMIT && s.file <= p.0.file
  {
    var k := Handled(s, job, 0, cluster);
    var t := Behind(s, job, k, cluster);
    if k == |job.contents| then Finished(t, job, ResultAt(s, job, k, cluster))
    else
      var e := EffectAt(s, job, k, cluster);
      if e.Quits? then (t, e.r) else Finished(t, job, ResultAt(s, job, k + 1, cluster))
  }

  // Along the loop

  lemma {:induction false} ResultStays(s: Store, job: Job, n: nat, k: nat, cluster: nat)
    requires |s.file| < LIMIT && 512 <= cluster && n <= k <= |job.contents| == |job.rooms|
    requires forall j :: n <= j < k ==> EffectAt(s, job, j, cluster).Leaves?
    ensures ResultAt(s, job, k, cluster) == ResultAt(s, job, n, cluster)
    decreases k
  {
    if n == k {
    } else {
      ResultStays(s, job, n, k - 1, cluster);
    }
  }

  lemma {:induction false} HandledAll(s: Store, job: Job, n: nat, cluster: nat)
    requires |s.file| < LIMIT && 512 <= cluster && n <= |job.contents| == |job.rooms|
    ensures Handled(s, job, n, cluster) == |job.contents|
            <==> forall k :: n <= k < |job.contents| ==> GoesOn(EffectAt(s, job, k, cluster))
    decreases |job.contents| - n
  {
    hide EffectAt, GoesOn;
    if n == |job.contents| || !GoesOn(EffectAt(s, job, n, cluster)) {
    } else {
      HandledAll(s, job, n + 1, cluster);
    }
  }

  lemma {:induction false} TmdStays(s: Store, job: Job, n: nat, cluster: nat)
    requires |s.file| < LIMIT && 512 <= cluster && n <= |job.contents| == |job.rooms|
    ensures Behind(s, job, n, cluster).tmpTmd == s.tmpTmd && Behind(s, job, n, cluster).tmds == s.tmds
  {
    if n == 0 {
    } else {
      TmdStays(s, job, n - 1, cluster);
    }
  }

  // Content k is the last one that sets the result, and sets it to success.
  ghost predicate LastSuccess(s: Store, job: Job, k: nat, n: nat, cluster: nat)
    requires |s.file| < LIMIT && 512 <= cluster && k < n <= |job.contents| == |job.rooms|
  {
    && EffectAt(s, job, k, cluster) == Sets(ES_SUCCESS)
    && forall j :: k < j < n ==> EffectAt(s, job, j, cluster).Leaves?
  }

  lemma {:induction false} SuccessAt(s: Store, job: Job, n: nat, cluster: nat)
    requires |s.file| < LIMIT && 512 <= cluster && n <= |job.contents| == |job.rooms|
    ensures ResultAt(s, job, n, cluster) == ES_SUCCESS
            && (forall k :: 0 <= k < n ==> GoesOn(EffectAt(s, job, k, cluster)))
            <==> (forall k :: 0 <= k < n ==> GoesOn(EffectAt(s, job, k, cluster)))
                 && exists k :: 0 <= k < n && LastSuccess(s, job, k, n, cluster)
  {
    hide EffectAt;
    if n == 0 {
    } else {
      var e := EffectAt(s, job, n - 1, cluster);
      SuccessAt(s, job, n - 1, cluster);
      if e == Sets(ES_SUCCESS) {
        assert LastSuccess(s, job, n - 1, n, cluster);
      } else if e.Leaves? {
        var m := n - 1;
        if k: nat :| k < m && LastSuccess(s, job, k, m, cluster) {
          assert LastSuccess(s, job, k, n, cluster);
        }
        if k: nat :| k < n && LastSuccess(s, job, k, n, cluster) {
          assert LastSuccess(s, job, k, m, cluster);
        }
      }
    }
  }

  // A content that ends the loop has changed nothing.
  lemma EndsAsItWas(s: Store, title: nat, c: Content, room: Room, cluster: nat)
    requires |s.file| < LIMIT && 512 <= cluster
    ensures !GoesOn(EffectOf(s, title, c, room)) ==> After(s, title, c, room, cluster) == s
  {
  }

  // No failed rename looks like a success.
  lemma EndsBadly(s: Store, job: Job, k: nat, cluster: nat)
    requires |s.file| < LIMIT && 512 <= cluster && k < |job.contents| == |job.rooms|
    ensures var e := EffectAt(s, job, k, cluster); !GoesOn(e) ==> e.r < 0
  {
  }

  /** ES_AddTitleFinish succeeds if and only if no content ends it, the last one that sets the result sets it to
      success, and the TMD can be moved. */
  lemma SuccessWhen(s: Store, job: Job, cluster: nat)
    requires |s.file| < LIMIT && 512 <= cluster && |job.contents| == |job.rooms|
    ensures var n := |job.contents|;
            Installed(s, job, cluster).1 == ES_SUCCESS
            <==> && (forall k :: 0 <= k < n ==> GoesOn(EffectAt(s, job, k, cluster)))
                 && (exists k :: 0 <= k < n && LastSuccess(s, job, k, n, cluster))
                 && s.tmpTmd && job.tmdSlot
  {
    var n, k := |job.contents|, Handled(s, job, 0, cluster);
    HandledAll(s, job, 0, cluster);
    SuccessAt(s, job, n, cluster);
    TmdStays(s, job, k, cluster);
    if k < n {
      EndsBadly(s, job, k, cluster);
    }
    hide EffectAt, Behind, Handled, LastSuccess;
  }

  // The order of the map, and its files

  // Every entry of the map is backed by the file that was installed for its hash. Files are known by their names.
  ghost predicate Backed(m: seq<byte>, shared: map<seq<byte>, Data>, owners: map<seq<byte>, (Hash, Data)>) {
    forall k :: 0 <= k < Count(m) ==>
      Hex(k, 8) in owners && Hex(k, 8) in shared && owners[Hex(k, 8)] == (HashAt(m, k), shared[Hex(k, 8)])
  }

  /** The map is a map, and its entries have their files. */
  ghost predicate InOrder(s: Store) {
    IsMap(s.file) && |s.file| < LIMIT && Backed(s.file, s.shared, s.owners)
  }

  // The entries have kept their files.
  ghost predicate KeepsFiles(m: seq<byte>, shared: map<seq<byte>, Data>, shared': map<seq<byte>, Data>) {
    forall k :: 0 <= k < Count(m) && Hex(k, 8) in shared ==>
      Hex(k, 8) in shared' && shared'[Hex(k, 8)] == shared[Hex(k, 8)]
  }

  // The content's entry goes into the map.
  ghost predicate Registers(s: Store, title: nat, c: Content, room: Room) {
    c.shared && Moves(s, title, c) && MoveResult(s, c, room) >= 0
  }

  // All of the entry is written, under the number of the entry; or none of it, and the name belongs to no entry.
  ghost predicate Whole(s: Store, title: nat, c: Content, room: Room, cluster: nat)
    requires |s.file| < LIMIT && 512 <= cluster
  {
    Registers(s, title, c, room) ==>
      var n := Takes(|s.file|, room.free, cluster);
      (n == 0 && Count(s.file) <= NextNumber(|s.file|)) || (n == ENTRY && |s.file| < HALF)
  }

  // A file under a name that belongs to no entry disturbs none.
  lemma OthersBacked(m: seq<byte>, shared: map<seq<byte>, Data>, owners: map<seq<byte>, (Hash, Data)>, n: nat,
                     owner: (Hash, Data))
    requires Backed(m, shared, owners) && Count(m) <= n < LIMIT
    ensures Backed(m, shared[Hex(n, 8) := owner.1], owners[Hex(n, 8) := owner])
    ensures KeepsFiles(m, shared, shared[Hex(n, 8) := owner.1])
  {
    forall k | 0 <= k < Count(m) ensures Hex(k, 8) != Hex(n, 8) {
      NamesDiffer(k, n);
    }
  }

  // With its whole entry the new file is backed, too.
  lemma NewBacked(m: seq<byte>, shared: map<seq<byte>, Data>, owners: map<seq<byte>, (Hash, Data)>, owner: (Hash, Data))
    requires Backed(m, shared, owners) && |m| == Count(m) * ENTRY && |m| < HALF
    ensures var name := NextName(|m|);
            Backed(m + NewEntry(|m|, owner.0), shared[name := owner.1], owners[name := owner])
  {
    var t := NewEntry(|m|, owner.0);
    NumberRight(m);
    OthersBacked(m, shared, owners, Count(m), owner);
    Longer(m, t);
    Appended(m, t);
    assert t[8..] == owner.0;
  }

  /** Registering a content keeps the order if and only if its entry is written whole, or not at all. */
  lemma RegisterOrder(s: Store, title: nat, c: Content, room: Room, cluster: nat)
    requires InOrder(s) && 512 <= cluster && Registers(s, title, c, room)
    ensures InOrder(After(s, title, c, room, cluster)) <==> Whole(s, title, c, room, cluster)
    ensures Whole(s, title, c, room, cluster) ==>
              KeepsFiles(s.file, s.shared, After(s, title, c, room, cluster).shared)
  {
    var n, m, owner := Takes(|s.file|, room.free, cluster), s.file, (c.hash, s.tmp[c.id]);
    OrderKept(m, c.hash, n);
    NumberRight(m);
    if n == 0 {
      assert m + NewEntry(|m|, c.hash)[..0] == m;
      if Count(m) <= NextNumber(|m|) {
        OthersBacked(m, s.shared, s.owners, NextNumber(|m|), owner);
      } else {
        NameTaken(s, c.hash, owner, NextNumber(|m|));
      }
    } else if n == ENTRY {
      assert NewEntry(|m|, c.hash)[..ENTRY] == NewEntry(|m|, c.hash);
      if |m| < HALF {
        OthersBacked(m, s.shared, s.owners, NextNumber(|m|), owner);
        NewBacked(m, s.shared, s.owners, owner);
      }
    }
  }

  // A file moved over that of an entry.
  lemma NameTaken(s: Store, hash: Hash, owner: (Hash, Data), k: nat)
    requires k < Count(s.file) && !HasHash(s.file, hash) && owner.0 == hash
    ensures !Backed(s.file, s.shared[Hex(k, 8) := owner.1], s.owners[Hex(k, 8) := owner])
  {
    assert HashAt(s.file, k) != hash;
  }

  /** Any content keeps the order exactly if its entry, if it gets one, is written whole or not at all. */
  lemma ContentOrder(s: Store, title: nat, c: Content, room: Room, cluster: nat)
    requires InOrder(s) && 512 <= cluster
    ensures InOrder(After(s, title, c, room, cluster)) <==> Whole(s, title, c, room, cluster)
    ensures Whole(s, title, c, room, cluster) ==>
              KeepsFiles(s.file, s.shared, After(s, title, c, room, cluster).shared)
  {
    if Registers(s, title, c, room) {
      RegisterOrder(s, title, c, room, cluster);
    }
  }

  lemma KeepsOn(m: seq<byte>, m': seq<byte>, s: map<seq<byte>, Data>, t: map<seq<byte>, Data>, u: map<seq<byte>, Data>)
    requires m <= m' && KeepsFiles(m, s, t) && KeepsFiles(m', t, u)
    ensures KeepsFiles(m, s, u)
  {
    assert Count(m) <= Count(m');
  }

  ghost predicate WholeAt(s: Store, job: Job, k: nat, cluster: nat)
    requires |s.file| < LIMIT && 512 <= cluster && k < |job.contents| == |job.rooms|
  {
    Whole(Behind(s, job, k, cluster), job.title, job.contents[k], job.rooms[k], cluster)
  }

  lemma {:induction false} BehindOrder(s: Store, job: Job, n: nat, cluster: nat)
    requires InOrder(s) && 512 <= cluster && n <= |job.contents| == |job.rooms|
    requires forall k :: 0 <= k < n ==> WholeAt(s, job, k, cluster)
    ensures InOrder(Behind(s, job, n, cluster)) && KeepsFiles(s.file, s.shared, Behind(s, job, n, cluster).shared)
  {
    if n == 0 {
    } else {
      BehindOrder(s, job, n - 1, cluster);
      assert WholeAt(s, job, n - 1, cluster);
      var t := Behind(s, job, n - 1, cluster);
      ContentOrder(t, job.title, job.contents[n - 1], job.rooms[n - 1], cluster);
      KeepsOn(s.file, t.file, s.shared, t.shared, Behind(s, job, n, cluster).shared);
    }
  }

  /** An installation keeps the map a map, and every entry its file, if every entry is written whole or not at all. */
  lemma InstalledOrder(s: Store, job: Job, cluster: nat)
    requires InOrder(s) && 512 <= cluster && |job.contents| == |job.rooms|
    requires forall k :: 0 <= k < |job.contents| ==> WholeAt(s, job, k, cluster)
    ensures InOrder(Installed(s, job, cluster).0)
    ensures KeepsFiles(s.file, s.shared, Installed(s, job, cluster).0.shared)
  {
    BehindOrder(s, job, Handled(s, job, 0, cluster), cluster);
  }

  // A longer map has the hashes of the shorter one.
  lemma HashStays(m: seq<byte>, m': seq<byte>, hash: Hash)
    requires m <= m' && HasHash(m, hash)
    ensures HasHash(m', hash)
  {
    var k :| 0 <= k < Count(m) && HashAt(m, k) == hash;
    assert HashAt(m', k) == hash;
  }

  lemma {:induction false} BehindGrows(s: Store, job: Job, n: nat, k: nat, cluster: nat)
    requires |s.file| < LIMIT && 512 <= cluster && n <= k <= |job.contents| == |job.rooms|
    ensures Behind(s, job, n, cluster).file <= Behind(s, job, k, cluster).file
    decreases k
  {
    if n == k {
    } else {
      BehindGrows(s, job, n, k - 1, cluster);
    }
  }

  lemma RegisteredNow(s: Store, title: nat, c: Content, room: Room, cluster: nat)
    requires InOrder(s) && 512 <= cluster && s.present && c.shared
    requires HasHash(s.file, c.hash) || (c.id in s.tmp && room.slot && Takes(|s.file|, room.free, cluster) == ENTRY)
    ensures HasHash(After(s, title, c, room, cluster).file, c.hash)
  {
    if !HasHash(s.file, c.hash) {
      EntryTaken(s.file, c.hash, ENTRY);
    }
  }

  lemma BehindNext(s: Store, job: Job, k: nat, cluster: nat)
    requires |s.file| < LIMIT && 512 <= cluster && k < |job.contents| == |job.rooms|
    ensures Behind(s, job, k + 1, cluster)
            == After(Behind(s, job, k, cluster), job.title, job.contents[k], job.rooms[k], cluster)
  {
  }

  lemma InstalledFile(s: Store, job: Job, cluster: nat)
    requires |s.file| < LIMIT && 512 <= cluster && |job.contents| == |job.rooms|
    ensures Installed(s, job, cluster).0.file == Behind(s, job, Handled(s, job, 0, cluster), cluster).file
  {
  }

  /** A shared content the loop has handled is in the map at the end if it was there already, or its file could be
      moved and its whole entry written. */
  lemma HandledIsIn(s: Store, job: Job, k: nat, cluster: nat)
    requires InOrder(s) && 512 <= cluster && |job.contents| == |job.rooms| && s.present
    requires k < Handled(s, job, 0, cluster) && job.contents[k].shared
    requires forall j :: 0 <= j < k ==> WholeAt(s, job, j, cluster)
    requires var t, c, room := Behind(s, job, k, cluster), job.contents[k], job.rooms[k];
             HasHash(t.file, c.hash)
             || (c.id in t.tmp && room.slot && Takes(|t.file|, room.free, cluster) == ENTRY)
    ensures HasHash(Installed(s, job, cluster).0.file, job.contents[k].hash)
  {
    hide Behind, After, Installed, InOrder, WholeAt, HasHash;
    BehindOrder(s, job, k, cluster);
    RegisteredNow(Behind(s, job, k, cluster), job.title, job.contents[k], job.rooms[k], cluster);
    BehindNext(s, job, k, cluster);
    InstalledFile(s, job, cluster);
    var c := job.contents[k];
    var h := Handled(s, job, 0, cluster);
    BehindGrows(s, job, k + 1, h, cluster);
    HashStays(Behind(s, job, k + 1, cluster).file, Behind(s, job, h, cluster).file, c.hash);
  }

  // The same contents on the store as it was before the call

  // All files have different names, and all shared contents different hashes.
  ghost predicate Separate(cs: seq<Content>) {
    forall j, k :: 0 <= j < k < |cs| ==>
      cs[j].id != cs[k].id && (cs[j].shared && cs[k].shared ==> cs[j].hash != cs[k].hash)
  }

  // What content c finds in either store is the same.
  ghost predicate Alike(s: Store, t: Store, title: nat, c: Content) {
    && t.present == s.present && (c.id in t.tmp <==> c.id in s.tmp)
    && ((title, c.id) in t.own <==> (title, c.id) in s.own)
    && (c.shared ==> (HasHash(t.file, c.hash) <==> HasHash(s.file, c.hash)))
  }

  // Another content, whose entry is written whole or not at all, leaves what content d finds.
  lemma AlikeStep(s: Store, title: nat, c: Content, room: Room, cluster: nat, d: Content)
    requires |s.file| < LIMIT && 512 <= cluster && |s.file| == Count(s.file) * ENTRY
    requires Whole(s, title, c, room, cluster)
    requires c.id != d.id && (c.shared && d.shared ==> c.hash != d.hash)
    ensures var t := After(s, title, c, room, cluster);
            |t.file| == Count(t.file) * ENTRY && Alike(s, t, title, d)
  {
    if Registers(s, title, c, room) {
      var n, entry := Takes(|s.file|, room.free, cluster), NewEntry(|s.file|, c.hash);
      HashesOf(s.file, entry[..n], d.hash);
      if n == ENTRY {
        Appended(s.file, entry[..n]);
        assert entry[..n] == entry && entry[8..] == c.hash;
      } else {
        assert s.file + entry[..n] == s.file;
      }
    }
  }

  lemma {:induction false} AlikeBehind(s: Store, job: Job, n: nat, k: nat, cluster: nat)
    requires |s.file| < LIMIT && 512 <= cluster && n <= k < |job.contents| == |job.rooms| && Separate(job.contents)
    requires |s.file| == Count(s.file) * ENTRY && forall j :: 0 <= j < n ==> WholeAt(s, job, j, cluster)
    ensures var t := Behind(s, job, n, cluster);
            |t.file| == Count(t.file) * ENTRY && Alike(s, t, job.title, job.contents[k])
  {
    if n == 0 {
    } else {
      AlikeBehind(s, job, n - 1, k, cluster);
      assert WholeAt(s, job, n - 1, cluster);
      AlikeStep(Behind(s, job, n - 1, cluster), job.title, job.contents[n - 1], job.rooms[n - 1], cluster,
        job.contents[k]);
    }
  }

  // What content k of a job finds in the store before the call.
  ghost function EffectNow(s: Store, job: Job, k: nat): Effect
    requires k < |job.contents| == |job.rooms|
  {
    EffectOf(s, job.title, job.contents[k], job.rooms[k])
  }

  lemma EffectsNow(s: Store, job: Job, k: nat, cluster: nat)
    requires |s.file| < LIMIT && 512 <= cluster && k < |job.contents| == |job.rooms| && Separate(job.contents)
    requires |s.file| == Count(s.file) * ENTRY && forall j :: 0 <= j < |job.contents| ==> WholeAt(s, job, j, cluster)
    ensures EffectAt(s, job, k, cluster) == EffectNow(s, job, k)
  {
    AlikeBehind(s, job, k, k, cluster);
  }

  /** For different contents, and entries that are written whole, success can be told before the call: no content ends
      it, the last one that sets the result sets it to success, and the TMD is in /tmp and has a place. */
  lemma SuccessNow(s: Store, job: Job, cluster: nat)
    requires |s.file| < LIMIT && 512 <= cluster && |job.contents| == |job.rooms| && Separate(job.contents)
    requires |s.file| == Count(s.file) * ENTRY
    requires forall j :: 0 <= j < |job.contents| ==> WholeAt(s, job, j, cluster)
    ensures var n := |job.contents|;
            Installed(s, job, cluster).1 == ES_SUCCESS
            <==> && (forall k :: 0 <= k < n ==> GoesOn(EffectNow(s, job, k)))
                 && (exists k :: 0 <= k < n && LastSuccessNow(s, job, k))
                 && s.tmpTmd && job.tmdSlot
  {
    var n := |job.contents|;
    SuccessWhen(s, job, cluster);
    forall k | 0 <= k < n ensures EffectAt(s, job, k, cluster) == EffectNow(s, job, k) {
      EffectsNow(s, job, k, cluster);
    }
    forall k | 0 <= k < n ensures LastSuccess(s, job, k, n, cluster) <==> LastSuccessNow(s, job, k) {
    }
  }

  ghost predicate LastSuccessNow(s: Store, job: Job, k: nat)
    requires k < |job.contents| == |job.rooms|
  {
    && EffectNow(s, job, k) == Sets(ES_SUCCESS)
    && forall j :: k < j < |job.contents| ==> EffectNow(s, job, j).Leaves?
  }

  /** What that asks of a single content. */
  lemma GoesOnWhen(s: Store, job: Job, k: nat)
    requires k < |job.contents| == |job.rooms|
    ensures var c, room := job.contents[k], job.rooms[k];
            GoesOn(EffectNow(s, job, k)) <==> c.optional || !Moves(s, job.title, c) || (c.id in s.tmp && room.slot)
  {
  }

  /** Enough room, checked before the call, for all entries to be written whole. */
  lemma {:induction false} RoomEnough(s: Store, job: Job, n: nat, cluster: nat)
    requires 512 <= cluster && n <= |job.contents| == |job.rooms| && |s.file| + ENTRY * |job.contents| < HALF
    requires forall k :: 0 <= k < |job.contents| ==> 0 < job.rooms[k].free
    ensures |Behind(s, job, n, cluster).file| <= |s.file| + ENTRY * n
    ensures forall k :: 0 <= k < n ==> WholeAt(s, job, k, cluster)
  {
    if n == 0 {
    } else {
      RoomEnough(s, job, n - 1, cluster);
    }
  }

  // Titles whose installation fails though nothing is missing that they need

  /** A title whose contents are all shared and registered already: the result stays ES_FATAL, and the TMD is not
      moved. */
  lemma AllThere(s: Store, job: Job, cluster: nat)
    requires |s.file| < LIMIT && 512 <= cluster && |job.contents| == |job.rooms| && s.present
    requires forall k :: 0 <= k < |job.contents| ==> job.contents[k].shared && HasHash(s.file, job.contents[k].hash)
    ensures Installed(s, job, cluster).1 == ES_FATAL && Installed(s, job, cluster).0.tmds == s.tmds
  {
    var n := |job.contents|;
    forall k | 0 <= k < n ensures EffectAt(s, job, k, cluster).Leaves? {
      BehindGrows(s, job, 0, k, cluster);
      HashStays(s.file, Behind(s, job, k, cluster).file, job.contents[k].hash);
    }
    HandledAll(s, job, 0, cluster);
    ResultStays(s, job, 0, n, cluster);
    TmdStays(s, job, n, cluster);
  }

  /** The least of them: one content, not optional, that another title has brought. */
  lemma OneThere(s: Store, c: Content, title: nat, room: Room, cluster: nat)
    requires |s.file| < LIMIT && 512 <= cluster && s.present && HasHash(s.file, c.hash)
    requires c == Content(7, true, false, c.hash) && 7 in s.tmp && s.tmpTmd
    ensures var job := Job(title, map[], false, [c], [room], true);
            var (t, r) := Installed(s, job, cluster);
            r == ES_FATAL && t.tmds == s.tmds && 7 !in t.tmp && !t.tmpTmd
  {
    AllThere(s, Job(title, map[], false, [c], [room], true), cluster);
  }

  /** Without content.map a title of shared contents gets ES_FATAL, though nothing ends the loop. */
  lemma NoMap(s: Store, job: Job, cluster: nat)
    requires |s.file| < LIMIT && 512 <= cluster && |job.contents| == |job.rooms| && !s.present
    requires forall k :: 0 <= k < |job.contents| ==> job.contents[k].shared
    ensures Installed(s, job, cluster).1 == ES_FATAL && Installed(s, job, cluster).0.tmds == s.tmds
  {
    var n := |job.contents|;
    forall k | 0 <= k < n ensures EffectAt(s, job, k, cluster).Leaves? {
    }
    HandledAll(s, job, 0, cluster);
    ResultStays(s, job, 0, n, cluster);
    TmdStays(s, job, n, cluster);
  }

  /** An optional shared content in the last place whose file is missing: its rename's error is the result of it all. */
  lemma OptionalLast(s: Store, job: Job, cluster: nat)
    requires |s.file| < LIMIT && 512 <= cluster && 0 < |job.contents| == |job.rooms|
    requires forall k :: 0 <= k < |job.contents| ==> GoesOn(EffectAt(s, job, k, cluster))
    requires var n := |job.contents| - 1;
             var t, c := Behind(s, job, n, cluster), job.contents[n];
             c.optional && c.shared && t.present && !HasHash(t.file, c.hash) && c.id !in t.tmp
    ensures Installed(s, job, cluster).1 == FS_NO_ENTRY && Installed(s, job, cluster).0.tmds == s.tmds
  {
    HandledAll(s, job, 0, cluster);
    TmdStays(s, job, |job.contents|, cluster);
  }

  // Runs of installations

  // What is put into /tmp before the call.
  ghost function Staged(s: Store, job: Job): Store {
    s.(tmp := s.tmp + job.staged, tmpTmd := s.tmpTmd || job.tmd)
  }

  ghost predicate JobsGood(jobs: seq<Job>) {
    forall i :: 0 <= i < |jobs| ==> |jobs[i].contents| == |jobs[i].rooms|
  }

  // The store behind the first n installations, and the result of the last of them.
  ghost function StoreAt(s: Store, jobs: seq<Job>, n: nat, cluster: nat): (t: Store)
    requires |s.file| < LIMIT && 512 <= cluster && n <= |jobs| && JobsGood(jobs)
    ensures |t.file| < LIMIT && s.file <= t.file
  {
    if n == 0 then s else Installed(Staged(StoreAt(s, jobs, n - 1, cluster), jobs[n - 1]), jobs[n - 1], cluster).0
  }

  ghost function ResultOf(s: Store, jobs: seq<Job>, n: nat, cluster: nat): int
    requires |s.file| < LIMIT && 512 <= cluster && n < |jobs| && JobsGood(jobs)
  {
    Installed(Staged(StoreAt(s, jobs, n, cluster), jobs[n]), jobs[n], cluster).1
  }

  ghost predicate JobWhole(s: Store, jobs: seq<Job>, n: nat, cluster: nat)
    requires |s.file| < LIMIT && 512 <= cluster && n < |jobs| && JobsGood(jobs)
  {
    var t := Staged(StoreAt(s, jobs, n, cluster), jobs[n]);
    forall k :: 0 <= k < |jobs[n].contents| ==> WholeAt(t, jobs[n], k, cluster)
  }

  /** Any sequence of installations, whatever they return: the map stays a map and every entry keeps the file that was
      installed for its hash, as long as entries are written whole or not at all. */
  lemma {:induction false} RunOrder(s: Store, jobs: seq<Job>, n: nat, cluster: nat)
    requires InOrder(s) && 512 <= cluster && n <= |jobs| && JobsGood(jobs)
    requires forall i :: 0 <= i < n ==> JobWhole(s, jobs, i, cluster)
    ensures InOrder(StoreAt(s, jobs, n, cluster)) && KeepsFiles(s.file, s.shared, StoreAt(s, jobs, n, cluster).shared)
  {
    if n == 0 {
    } else {
      RunOrder(s, jobs, n - 1, cluster);
      assert JobWhole(s, jobs, n - 1, cluster);
      var t := StoreAt(s, jobs, n - 1, cluster);
      InstalledOrder(Staged(t, jobs[n - 1]), jobs[n - 1], cluster);
      KeepsOn(s.file, t.file, s.shared, t.shared, StoreAt(s, jobs, n, cluster).shared);
    }
  }

  lemma StoreGrows(s: Store, jobs: seq<Job>, n: nat, cluster: nat)
    requires |s.file| < LIMIT && 512 <= cluster && n < |jobs| && JobsGood(jobs)
    ensures StoreAt(s, jobs, n, cluster).file <= StoreAt(s, jobs, n + 1, cluster).file
  {
    hide Installed;
  }

  lemma {:induction false} RunGrows(s: Store, jobs: seq<Job>, i: nat, n: nat, cluster: nat)
    requires |s.file| < LIMIT && 512 <= cluster && i <= n <= |jobs| && JobsGood(jobs)
    ensures StoreAt(s, jobs, i, cluster).file <= StoreAt(s, jobs, n, cluster).file
    decreases n
  {
    hide StoreAt, JobsGood;
    if i == n {
    } else {
      RunGrows(s, jobs, i, n - 1, cluster);
      StoreGrows(s, jobs, n - 1, cluster);
    }
  }

  /** A hash that is registered at any time stays registered, whatever is written later. */
  lemma RunRegisters(s: Store, jobs: seq<Job>, i: nat, n: nat, hash: Hash, cluster: nat)
    requires |s.file| < LIMIT && 512 <= cluster && i <= n <= |jobs| && JobsGood(jobs)
    requires HasHash(StoreAt(s, jobs, i, cluster).file, hash)
    ensures HasHash(StoreAt(s, jobs, n, cluster).file, hash)
  {
    RunGrows(s, jobs, i, n, cluster);
    HashStays(StoreAt(s, jobs, i, cluster).file, StoreAt(s, jobs, n, cluster).file, hash);
  }
}
