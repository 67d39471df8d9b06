/** The registry of shared contents as ES keeps it: content.map and its files, and the copy of the map in memory. */
module ContentRegistry {
  import opened Bytes
  import opened ContentMap
  import opened SharedContent

  class Registry {
    // The bytes of a cluster of the volume.
    const cluster: nat
    // Whether there is a file content.map, its bytes, and the files /shared1/name.app.
    const present: bool
    var file: seq<byte>
    var shared: map<seq<byte>, Data>
    // The files /tmp/id.app, and whether there is a /tmp/title.tmd.
    var tmp: map<nat, Data>
    var tmpTmd: bool
    // The contents and the TMDs in the directories of the titles.
    var own: map<(nat, nat), Data>
    var tmds: set<nat>
    // CNTMap with CNTSize, and CNTMapDirty.
    var cntMap: seq<byte>
    var dirty: bool
    // What was moved to a shared name, and for which hash.
    ghost var owners: map<seq<byte>, (Hash, Data)>

    /** What every call keeps, whatever the disk takes: a copy that is not dirty is the file. */
    ghost predicate Valid()
      reads this
    {
      512 <= cluster && |file| < LIMIT && (!dirty ==> present && cntMap == file)
    }

    ghost function Contents(): Store
      reads this
    {
      Store(present, file, shared, tmp, tmpTmd, own, tmds, owners)
    }

    constructor (cluster: nat, present: bool, file: seq<byte>, shared: map<seq<byte>, Data>)
      requires 512 <= cluster && |file| < LIMIT
      ensures Valid() && Contents() == Store(present, file, shared, map[], false, map[], {}, map[])
    {
      this.cluster, this.present, this.file, this.shared := cluster, present, file, shared;
      tmp, tmpTmd, own, tmds, cntMap, dirty, owners := map[], false, map[], {}, [], true, map[];
    }

    // The reloading both lookups begin with.
    method Load() returns (ok: bool)
      requires Valid()
      modifies this`cntMap, this`dirty
      ensures Valid() && ok == present && (ok ==> !dirty)
    {
      if dirty {
        cntMap := [];
        if !present {
          return false;
        }
        cntMap := file;
        dirty := false;
      }
      ok := true;
    }

    // The search both lookups end with.
    method Search(hash: Hash) returns (id: int)
      requires Valid() && !dirty
      ensures if HasHash(file, hash) then IsFirst(id, hash) else id == ES_FATAL
    {
      id := 0;
      while id < Count(cntMap)
        invariant 0 <= id <= Count(file) && forall k :: 0 <= k < id ==> HashAt(file, k) != hash
      {
        if cntMap[id * ENTRY + 8..(id + 1) * ENTRY] == hash {
          assert HashAt(file, id) == hash;
          return;
        }
        id := id + 1;
      }
      id := ES_FATAL;
    }

    // The first entry with the hash.
    ghost predicate IsFirst(id: int, hash: Hash)
      reads this
    {
      0 <= id < Count(file) && HashAt(file, id) == hash && forall k :: 0 <= k < id ==> HashAt(file, k) != hash
    }

    /** GetSharedContentID: the entry with the hash, if there is one; in an ordered map its file is the one that was
        installed for the hash. */
    method GetSharedContentID(hash: Hash) returns (id: int)
      requires Valid()
      modifies this`cntMap, this`dirty
      ensures Valid() && if present && HasHash(file, hash) then IsFirst(id, hash) else id == ES_FATAL
      ensures id >= 0 && InOrder(Contents()) ==>
                var name := Hex(id, 8); name in shared && name in owners && owners[name] == (hash, shared[name])
    {
      var ok := Load();
      if !ok {
        return ES_FATAL;
      }
      id := Search(hash);
    }

    /** ES_CheckSharedContent: 1 if the hash is registered, 0 if not. */
    method CheckSharedContent(hash: Hash) returns (r: int)
      requires Valid()
      modifies this`cntMap, this`dirty
      ensures Valid() && r == if !present then ES_FATAL else if HasHash(file, hash) then 1 else 0
    {
      var ok := Load();
      if !ok {
        return ES_FATAL;
      }
      var id := Search(hash);
      r := if id >= 0 then 1 else 0;
    }

    // The file goes to /shared1, and as much of the entry as f_write takes goes to the map.
    method Register(c: Content, room: Room)
      requires Valid() && present && c.id in tmp
      modifies this`file, this`shared, this`tmp, this`owners, this`dirty
      ensures Valid() && Contents() == Registered(old(Contents()), c, Takes(old(|file|), room.free, cluster))
    {
      var size := |file|;
      owners := owners[NextName(size) := (c.hash, tmp[c.id])];
      shared := shared[NextName(size) := tmp[c.id]];
      tmp := tmp - {c.id};
      var entry := NextName(size) + c.hash;
      var n := Takes(size, room.free, cluster);
      file := file + entry[..n];
      dirty := true;
    }

    // A shared content.
    method AddShared(title: nat, c: Content, room: Room) returns (e: Effect)
      requires Valid() && c.shared
      modifies this`cntMap, this`file, this`shared, this`tmp, this`owners, this`dirty
      ensures Valid() && e == EffectOf(old(Contents()), title, c, room)
      ensures Contents() == After(old(Contents()), title, c, room, cluster)
    {
      var found := CheckSharedContent(c.hash);
      if found == 0 {
        var r := Renamed(c.id in tmp, room.slot);
        if r < 0 {
          return if !c.optional then Quits(r) else Sets(r);
        }
        Register(c, room);
        e := Sets(ES_SUCCESS);
      } else if found == 1 {
        tmp := tmp - {c.id};
        e := Leaves;
      } else {
        e := Leaves;
      }
    }

    // A content of the title's own.
    method AddOwn(title: nat, c: Content, room: Room) returns (e: Effect)
      requires Valid() && !c.shared
      modifies this`own, this`tmp
      ensures Valid() && e == EffectOf(old(Contents()), title, c, room)
      ensures Contents() == After(old(Contents()), title, c, room, cluster)
    {
      if (title, c.id) !in own {
        var r := Renamed(c.id in tmp, room.slot);
        if r < 0 {
          if !c.optional {
            return Stops(r);
          }
          r := ES_SUCCESS;
        } else {
          own := own[(title, c.id) := tmp[c.id]];
          tmp := tmp - {c.id};
        }
        e := Sets(r);
      } else {
        tmp := tmp - {c.id};
        e := Sets(ES_SUCCESS);
      }
    }

    // The loop over the contents, and the value of r behind it; quit says that the call returns from inside the loop.
    method AddContents(job: Job) returns (r: int, quit: bool)
      requires Valid() && |job.contents| == |job.rooms|
      modifies this`cntMap, this`file, this`shared, this`tmp, this`own, this`owners, this`dirty
      ensures Valid()
      ensures var s, k := old(Contents()), Handled(old(Contents()), job, 0, cluster);
              && Contents() == Behind(s, job, k, cluster)
              && if k == |job.contents| then !quit && r == ResultAt(s, job, k, cluster)
                 else quit == EffectAt(s, job, k, cluster).Quits? && r == EffectAt(s, job, k, cluster).r
    {
      r, quit := ES_FATAL, false;
      var i := 0;
      ghost var s := Contents();
      hide After, EffectOf;
      while i < |job.contents|
        invariant 0 <= i <= |job.contents| && Valid() && !quit
        invariant Contents() == Behind(s, job, i, cluster) && r == ResultAt(s, job, i, cluster)
        invariant Handled(s, job, i, cluster) == Handled(s, job, 0, cluster)
      {
        var c := job.contents[i];
        var e;
        if c.shared {
          e := AddShared(job.title, c, job.rooms[i]);
        } else {
          e := AddOwn(job.title, c, job.rooms[i]);
        }
        EndsAsItWas(Behind(s, job, i, cluster), job.title, c, job.rooms[i], cluster);
        match e {
          case Leaves =>
          case Sets(v) => r := v;
          case Stops(v) => return v, false;
          case Quits(v) => return v, true;
        }
        i := i + 1;
      }
    }

    /** ES_AddTitleFinish. */
    method AddTitle(job: Job) returns (r: int)
      requires Valid() && |job.contents| == |job.rooms|
      modifies this
      ensures Valid() && (Contents(), r) == Installed(old(Contents()), job, cluster)
    {
      hide Behind, EffectAt, Finished;
      var quit;
      r, quit := AddContents(job);
      if !quit {
        r := Finish(job, r);
      }
    }

    // What follows the loop: the TMD, and the cleaning up.
    method Finish(job: Job, r0: int) returns (r: int)
      requires Valid()
      modifies this`tmds, this`tmpTmd, this`tmp
      ensures Valid() && (Contents(), r) == Finished(old(Contents()), job, r0)
    {
      r := r0;
      if r == ES_SUCCESS {
        r := Renamed(tmpTmd, job.tmdSlot);
        if r >= 0 {
          tmds := tmds + {job.title};
        }
      }
      tmpTmd := false;
      CleanUp(job.contents);
    }

    // Deletes what is left of the contents in /tmp.
    method CleanUp(cs: seq<Content>)
      modifies this`tmp
      ensures tmp == old(tmp) - Ids(cs)
    {
      var i := 0;
      assert cs[..0] == [];
      while i < |cs|
        invariant 0 <= i <= |cs| && tmp == old(tmp) - Ids(cs[..i])
      {
        assert cs[..i + 1] == cs[..i] + [cs[i]];
        tmp := tmp - {cs[i].id};
        i := i + 1;
      }
      assert cs[..i] == cs;
    }

    /** Any sequence of installations: every one does and returns what it should on the store the ones before it left.
        */
    method InstallAll(jobs: seq<Job>) returns (rs: seq<int>)
      requires Valid() && JobsGood(jobs)
      modifies this
      ensures Valid() && |rs| == |jobs| && Contents() == StoreAt(old(Contents()), jobs, |jobs|, cluster)
      ensures forall i :: 0 <= i < |jobs| ==> rs[i] == ResultOf(old(Contents()), jobs, i, cluster)
    {
      rs := [];
      ghost var s := Contents();
      hide Installed, Staged;
      while |rs| < |jobs|
        invariant |rs| <= |jobs| && Valid() && Contents() == StoreAt(s, jobs, |rs|, cluster)
        invariant forall i :: 0 <= i < |rs| ==> rs[i] == ResultOf(s, jobs, i, cluster)
      {
        var r := Install(jobs[|rs|]);
        rs := rs + [r];
      }
    }

    // The files of a title, put into /tmp, and its installation.
    method Install(job: Job) returns (r: int)
      requires Valid() && |job.contents| == |job.rooms|
      modifies this
      ensures Valid() && (Contents(), r) == Installed(Staged(old(Contents()), job), job, cluster)
    {
      tmp := tmp + job.staged;
      tmpTmd := tmpTmd || job.tmd;
      assert Contents() == Staged(old(Contents()), job);
      r := AddTitle(job);
    }
  }
}
