/** Whole runs on one file: any sequence of writes, the close, and reading the file back. */
module FileRuns {
  import opened Bytes
  import opened FatCodec
  import opened Steps
  import opened Volume
  import opened Chains
  import opened FileData
  import opened FatFileSystem
  import opened Files

  // The bytes taken of each buffer, one behind the other: ns are the counts f_write reported.
  function Taken(buffs: seq<seq<byte>>, ns: seq<nat>): (r: seq<byte>)
    requires |ns| == |buffs| && forall i :: 0 <= i < |ns| ==> ns[i] <= |buffs[i]|
  {
    if buffs == [] then []
    else
      var n := |buffs| - 1;
      Taken(buffs[..n], ns[..n]) + buffs[n][..ns[n]]
  }

  // The directory entry lies in the static root directory or in another chain of the volume.
  ghost predicate EntryOutside(fp: File, chains: set<seq<nat>>)
    reads fp, fp.fs
  {
    && fp.fs.g.Addressable(fp.dirSect, |fp.fs.disk|) && fp.fs.g.CopiesEnd() <= fp.dirSect
    && fp.dirOfs + 32 <= SECTOR_SIZE
    && (fp.dirSect < fp.fs.g.database || InAnother(fp.fs.g, fp.dirSect, chains - {fp.chain}))
  }

  ghost predicate InAnother(g: Geometry, s: nat, chains: set<seq<nat>>) {
    exists t :: t in chains && s in ChainSects(g, t)
  }

  lemma EntryStaysApart(fp: File, chains: set<seq<nat>>)
    requires fp.Valid0() && fp.SectsGood() && fp.fs.Owns(chains, fp.chain) && EntryOutside(fp, chains)
    ensures fp.EntryApart()
  {
    if fp.dirSect >= fp.fs.g.database {
      var g := fp.fs.g;
      SectsAre(g, fp.chain, fp.sects);
      var t :| t in chains - {fp.chain} && fp.dirSect in ChainSects(g, t);
      var q :| 0 <= q < |ChainSects(g, t)| && ChainSects(g, t)[q] == fp.dirSect;
      assert IsChain(fp.fs.fat, t) && (fp.chain != [] ==> NoShared(fp.chain, t));
      NotInChain(g, fp.fs.fat, fp.chain, t, q);
    }
  }

  // A table without a free entry has none once a chain has been kept or stretched.
  lemma NoFreeStays(fat: seq<nat>, fat': seq<nat>, chains: set<seq<nat>>, chains': set<seq<nat>>, s: seq<nat>,
      s': seq<nat>)
    requires Represents(fat, chains) && Represents(fat', chains') && |fat'| == |fat|
    requires chains' - {s'} == chains - {s} && s <= s' && (s' != [] ==> s' in chains')
    requires forall c :: 2 <= c < |fat| ==> fat[c] != 0
    ensures forall c :: 2 <= c < |fat'| ==> fat'[c] != 0
  {
    forall c | 2 <= c < |fat'| ensures fat'[c] != 0 {
      assert InSome(chains, c);
      var t :| t in chains && c in t;
      if t == s {
        var i :| 0 <= i < |s| && s[i] == c;
        assert s'[i] == c;
        ChainMember(fat', s', c);
      } else {
        assert t in chains - {s};
        ChainMember(fat', t, c);
      }
    }
  }

  /** What a count says: less than the whole buffer was taken only where the disk is full, or the file would reach 4
      GB. */
  ghost predicate Counts(fp: File, buffs: seq<seq<byte>>, ns: seq<nat>)
    reads fp, fp.fs
  {
    && |ns| <= |buffs|
    && forall i :: 0 <= i < |ns| ==>
         ns[i] <= |buffs[i]| && (ns[i] < |buffs[i]| ==> fp.fs.NoFree() || 0x1_0000_0000 <= fp.fsize + |buffs[i]|)
  }

  // The run of writes so far: start is what the file held, ns are the counts.
  ghost predicate Progress(fp: File, start: seq<byte>, buffs: seq<seq<byte>>, ns: seq<nat>)
    reads fp, fp.fs, fp.fs.win
  {
    && fp.Ready() && fp.Ahead() && fp.canWrite && !fp.failed && Counts(fp, buffs, ns) && (ns != [] ==> fp.written)
    && fp.fptr == |Taken(buffs[..|ns|], ns)| && fp.fptr <= fp.fsize == |fp.bytes| && fp.fs.Coherent()
    && fp.bytes == Overwrite(start, 0, Taken(buffs[..|ns|], ns))
  }

  // What no operation on the file changes, and what a run of them may change.
  twostate predicate Kept(fp: File, chains: set<seq<nat>>, chains': set<seq<nat>>)
    reads fp, fp.fs
  {
    && fp.SameOthers(chains, chains') && OnlyChanged(fp.fs.g, old(fp.fs.logical), fp.fs.logical, fp.sects)
    && fp.canRead == old(fp.canRead) && fp.dirSect == old(fp.dirSect) && fp.dirOfs == old(fp.dirOfs)
  }

  // One f_write of a run of writes.
  method WriteMore(fp: File, ghost start: seq<byte>, buffs: seq<seq<byte>>, ns: seq<nat>, ghost chains: set<seq<nat>>)
    returns (n: nat, ghost chains': set<seq<nat>>)
    requires Progress(fp, start, buffs, ns) && fp.fs.Owns(chains, fp.chain) && |ns| < |buffs|
             && |buffs[|ns|]| < 0x1_0000_0000
    modifies fp, fp.fs, fp.fs.win
    ensures Progress(fp, start, buffs, ns + [n]) && Kept(fp, chains, chains')
  {
    hide Overwrite;
    ghost var fat, s, i, t := fp.fs.fat, fp.chain, |ns|, fp.bytes;
    var res;
    res, n, chains' := fp.Write(buffs[|ns|], chains);
    if forall c :: 2 <= c < |fat| ==> fat[c] != 0 {
      NoFreeStays(fat, fp.fs.fat, chains, chains', s, fp.chain);
    }
    OverwriteTwice(start, Taken(buffs[..i], ns), buffs[i][..n], t, fp.bytes);
    TakenMore(buffs, ns, i, n);
  }

  /** Any number of f_write calls from the top of the file, with no seek between them. */
  method WriteAll(fp: File, buffs: seq<seq<byte>>, ghost chains: set<seq<nat>>)
    returns (ns: seq<nat>, ghost chains': set<seq<nat>>)
    requires fp.Ready() && fp.fs.Owns(chains, fp.chain) && fp.Ahead() && fp.fptr == 0 && fp.canWrite && !fp.failed
    requires forall i :: 0 <= i < |buffs| ==> |buffs[i]| < 0x1_0000_0000
    modifies fp, fp.fs, fp.fs.win
    ensures fp.Ready() && fp.fs.Coherent() && Kept(fp, chains, chains') && fp.fptr <= fp.fsize == |fp.bytes|
    ensures |ns| == |buffs| && Counts(fp, buffs, ns) && fp.bytes == Overwrite(old(fp.bytes), 0, Taken(buffs, ns))
    ensures buffs != [] || old(fp.written) ==> fp.written
  {
    hide Represents;
    ns, chains' := [], chains;
    OverwriteNone(fp.bytes, 0, []);
    assert fp.fs.Coherent() && fp.fsize == |fp.bytes|;
    assert OnlyChanged(fp.fs.g, fp.fs.logical, fp.fs.logical, fp.sects);
    hide File.Ready, File.Ahead, OnlyChanged, Overwrite;
    while |ns| < |buffs|
      invariant old(fp.written) ==> fp.written
      invariant |ns| <= |buffs| && Progress(fp, old(fp.bytes), buffs, ns) && Kept(fp, chains, chains')
    {
      var n;
      n, chains' := WriteMore(fp, old(fp.bytes), buffs, ns, chains');
      ns := ns + [n];
    }
    assert buffs[..|buffs|] == buffs;
  }

  lemma TakenMore(buffs: seq<seq<byte>>, ns: seq<nat>, i: nat, n: nat)
    requires i < |buffs| && |ns| == i && n <= |buffs[i]| && forall j :: 0 <= j < i ==> ns[j] <= |buffs[j]|
    ensures Taken(buffs[..i + 1], ns + [n]) == Taken(buffs[..i], ns) + buffs[i][..n]
  {
    assert buffs[..i + 1][..i] == buffs[..i] && (ns + [n])[..i] == ns;
  }

  // The entry's sector lies outside the file, wherever the file has grown to.
  lemma EntryOutsideStill(fp: File, chains: set<seq<nat>>, chains': set<seq<nat>>, chain0: seq<nat>, n: nat)
    requires fp.fs.g.Addressable(fp.dirSect, n) && fp.fs.g.CopiesEnd() <= fp.dirSect && fp.dirOfs + 32 <= SECTOR_SIZE
    requires fp.dirSect < fp.fs.g.database || InAnother(fp.fs.g, fp.dirSect, chains - {chain0})
    requires chains' - {fp.chain} == chains - {chain0} && n == |fp.fs.disk|
    ensures EntryOutside(fp, chains')
  {
  }

  /** The byte-array law: write any buffers from the top of the file, sync, open the entry again and read it
      all: what comes back is the old file with the bytes taken written over it. */
  method WriteSyncRead(fp: File, buffs: seq<seq<byte>>, tim: nat, ghost chains: set<seq<nat>>)
    returns (ns: seq<nat>, data: seq<byte>, ghost chains': set<seq<nat>>)
    requires fp.Ready() && fp.fs.Owns(chains, fp.chain) && fp.Ahead() && EntryOutside(fp, chains)
    requires fp.fptr == 0 && fp.canWrite && !fp.failed && forall i :: 0 <= i < |buffs| ==> |buffs[i]| < 0x1_0000_0000
    requires buffs != []
    modifies fp, fp.fs, fp.fs.win
    ensures fp.fs.Valid() && fp.fs.Coherent() && fp.SameOthers(chains, chains') && |ns| == |buffs|
            && Counts(fp, buffs, ns)
    ensures data == Overwrite(old(fp.bytes), 0, Taken(buffs, ns))
    ensures forall t {:trigger ChainSects(fp.fs.g, t)} ::
            t in chains' - {fp.chain} && fp.dirSect !in ChainSects(fp.fs.g, t) ==>
              SameOn(old(fp.fs.logical), fp.fs.logical, ChainSects(fp.fs.g, t))
  {
    ghost var chain0, n := fp.chain, |fp.fs.disk|;
    ns, chains' := WriteAll(fp, buffs, chains);
    EntryOutsideStill(fp, chains, chains', chain0, n);
    EntryStaysApart(fp, chains');
    ghost var mid := fp.fs.logical;
    data := SyncAndRead(fp, tim);
    forall t | t in chains' - {fp.chain} && fp.dirSect !in ChainSects(fp.fs.g, t)
      ensures SameOn(old(fp.fs.logical), fp.fs.logical, ChainSects(fp.fs.g, t))
    {
      OthersThroughSync(fp, old(fp.fs.logical), mid, chains', t);
    }
  }

  // Close the file, open its entry again and read it all.
  method SyncAndRead(fp: File, tim: nat) returns (data: seq<byte>)
    requires fp.Ready() && fp.fs.Coherent() && fp.EntryApart() && fp.fptr <= fp.fsize && fp.written
    modifies fp`written, fp.fs, fp.fs.win
    ensures fp.Valid() && fp.fs.Coherent() && fp.fs.fat == old(fp.fs.fat) && data == fp.bytes
    ensures OnlyEntryChanged(fp.fs.g, old(fp.fs.logical), fp.fs.logical, fp.dirSect)
  {
    var again := SyncAndReopen(fp, tim);
    var res;
    res, data := again.Read(again.fsize);
    assert data == again.bytes;
  }

  // Nothing but the entry's sector and the FSInfo sector changed from d to e.
  ghost predicate OnlyEntryChanged(g: Geometry, d: Disk, e: Disk, dirSect: nat) {
    && |d| == |e|
    && forall s {:trigger At(s)} ::
         At(s) && 0 <= s < |d| && s != dirSect && !(g.fsType == Fat32 && s == g.fsiSector) ==> e[s] == d[s]
  }

  lemma OthersThroughSync(fp: File, d: Disk, mid: Disk, chains: set<seq<nat>>, t: seq<nat>)
    requires fp.Valid() && fp.fs.Owns(chains, fp.chain) && t in chains - {fp.chain}
             && fp.dirSect !in ChainSects(fp.fs.g, t)
    requires OnlyChanged(fp.fs.g, d, mid, fp.sects) && OnlyEntryChanged(fp.fs.g, mid, fp.fs.logical, fp.dirSect)
    ensures SameOn(d, fp.fs.logical, ChainSects(fp.fs.g, t))
  {
    var g, sects := fp.fs.g, ChainSects(fp.fs.g, t);
    SectsAre(g, fp.chain, fp.sects);
    OtherChainsUntouched(g, d, mid, fp.fs.fat, chains, fp.chain, t);
    forall q | 0 <= q < |sects| ensures sects[q] < |d| && fp.fs.logical[sects[q]] == mid[sects[q]] {
      ChainSectInData(g, |d|, fp.fs.fat, t, q);
      assert At(sects[q]) && sects[q] in sects;
    }
  }

  method SyncAndReopen(fp: File, tim: nat) returns (again: File)
    requires fp.Ready() && fp.fs.Coherent() && fp.EntryApart() && fp.fptr <= fp.fsize && fp.written
    modifies fp`written, fp.fs, fp.fs.win
    ensures fp.Ready() && fp.fs.fat == old(fp.fs.fat)
    ensures OnlyEntryChanged(fp.fs.g, old(fp.fs.logical), fp.fs.logical, fp.dirSect)
    ensures fresh(again) && again.Ready() && again.fs == fp.fs && again.InStep() && !fp.fs.wflag
    ensures again.bytes == fp.bytes && again.fptr == 0 && again.fsize == |fp.bytes| && again.canRead && !again.failed
  {
    ghost var e := fp.Entry();
    assert fp.chain != [] ==> LinkAt(fp.fs.fat, fp.chain, 0);
    OpenAfterStamp(e, fp.orgClust, fp.fsize, tim);
    var _ := fp.Sync(tim);
    again := Reopen(fp);
  }

  // Opening the entry a synced file left behind: the same file, with the cursor at its top.
  method Reopen(fp: File) returns (again: File)
    requires fp.Ready() && fp.fs.Coherent() && fp.EntryApart() && fp.fptr <= fp.fsize && !fp.fs.wflag
    requires StartCluster(fp.Entry()) == fp.orgClust && FileSize(fp.Entry()) == fp.fsize
    modifies fp.fs`disk, fp.fs`winsect, fp.fs`wflag, fp.fs.win
    ensures fp.Ready() && fresh(again) && again.Ready() && again.fs == fp.fs && again.InStep() && !fp.fs.wflag
    ensures again.bytes == fp.bytes && again.fptr == 0 && again.fsize == fp.fsize && again.canRead && !again.failed
    ensures again.chain == fp.chain && fp.fs.disk == old(fp.fs.disk)
  {
    fp.fs.MoveWindow(fp.dirSect);
    assert fp.fs.win[fp.dirOfs..fp.dirOfs + 32] == fp.Entry();
    again := new File.Open(fp.fs, fp.dirOfs, true, false, fp.chain);
    SameFile(fp, again);
  }

  // Two files on one chain with one size hold the same bytes.
  lemma SameFile(f: File, h: File)
    requires f.Valid() && h.Valid() && f.fs == h.fs && f.chain == h.chain && |f.bytes| == |h.bytes|
    ensures f.bytes == h.bytes
  {
    SectsAre(f.fs.g, f.chain, f.sects);
    SectsAre(h.fs.g, h.chain, h.sects);
    HoldsBytes(f.fs.logical, f.sects, f.bytes);
    HoldsBytes(h.fs.logical, h.sects, h.bytes);
  }

  /** One of the three operations that move the cursor. */
  datatype Op = ReadOp(btr: nat) | WriteOp(buff: seq<byte>) | SeekOp(target: nat)

  // The error flag and the access mode of an open file, which no operation changes.
  datatype Mode = Mode(failed: bool, canRead: bool, canWrite: bool)

  /** The file seen from outside: the cursor, the size, and whether the disk is full. */
  datatype Pos = Pos(fptr: nat, fsize: nat, full: bool)

  ghost function ModeOf(fp: File): Mode
    reads fp
  {
    Mode(fp.failed, fp.canRead, fp.canWrite)
  }

  ghost function PosOf(fp: File): Pos
    reads fp, fp.fs
  {
    Pos(fp.fptr, fp.fsize, fp.fs.NoFree())
  }

  function Least(a: nat, b: nat): nat {
    if a < b then a else b
  }

  // The cursor has moved on by n bytes that were written, which is all of them unless there was no room.
  predicate Written(p: Pos, n: nat, len: nat, p': Pos) {
    && n <= len && p'.fptr == p.fptr + n && p'.fsize == (if p'.fptr > p.fsize then p'.fptr else p.fsize)
    && (n < len ==> p'.full || 0x1_0000_0000 <= p.fsize + len)
  }

  /** One operation, seen from outside. */
  ghost predicate Moves(m: Mode, op: Op, p: Pos, p': Pos) {
    && (p.full ==> p'.full)
    && match op
       case ReadOp(btr) =>
         p'.fsize == p.fsize && p'.fptr == if m.failed || !m.canRead then p.fptr else Least(p.fptr + btr, p.fsize)
       case WriteOp(buff) =>
         if m.failed || !m.canWrite then p' == p.(full := p'.full) else exists n :: Written(p, n, |buff|, p')
       case SeekOp(target) => p'.fsize == p.fsize && p'.fptr == if m.failed then p.fptr else Least(target, p.fsize)
  }

  ghost predicate IsTrace(m: Mode, trace: seq<Pos>, ops: seq<Op>, n: nat) {
    |trace| == n + 1 && n <= |ops| && forall k :: 0 <= k < n ==> Moves(m, ops[k], trace[k], trace[k + 1])
  }

  lemma TraceMore(m: Mode, trace: seq<Pos>, ops: seq<Op>, n: nat, p: Pos)
    requires IsTrace(m, trace, ops, n) && n < |ops| && Moves(m, ops[n], trace[n], p)
    ensures IsTrace(m, trace + [p], ops, n + 1)
  {
    hide Moves;
  }

  // What a read delivers is as long as the cursor's way.
  ghost predicate Lengths(trace: seq<Pos>, ops: seq<Op>, datas: seq<seq<byte>>) {
    |trace| == |datas| + 1 && |datas| <= |ops| && forall k :: 0 <= k < |datas| && ops[k].ReadOp? ==>
      trace[k].fptr + |datas[k]| == trace[k + 1].fptr
  }

  // What the reads deliver are the bytes the cursor passes.
  ghost predicate Delivered(bytes: seq<byte>, trace: seq<Pos>, ops: seq<Op>, datas: seq<seq<byte>>) {
    |trace| == |datas| + 1 && |datas| <= |ops| && forall k :: 0 <= k < |datas| && ops[k].ReadOp? ==>
      trace[k].fptr <= trace[k + 1].fptr <= |bytes| && datas[k] == bytes[trace[k].fptr..trace[k + 1].fptr]
  }

  // No write is among the first n operations.
  predicate NoWrites(ops: seq<Op>, n: nat) {
    forall k :: 0 <= k < n && k < |ops| ==> !ops[k].WriteOp?
  }

  lemma DeliveredMore(bytes: seq<byte>, trace: seq<Pos>, ops: seq<Op>, datas: seq<seq<byte>>, p: Pos, data: seq<byte>)
    requires Delivered(bytes, trace, ops, datas) && |datas| < |ops|
    requires ops[|datas|].ReadOp? ==> var at := trace[|datas|].fptr;
      at <= p.fptr <= |bytes| && data == bytes[at..p.fptr]
    ensures Delivered(bytes, trace + [p], ops, datas + [data])
  {
  }

  /** Any sequence of f_read, f_write and f_lseek on an open file, in any order: the cursor invariant holds after every
      operation, the cursor and the size are what the operations make them one after the other, the chain stays one of
      the FAT's, and every other chain is left alone. With the window in step at the start and no writes, every read
      delivers the file's bytes at the place the trace gives. */
  method Run(fp: File, ops: seq<Op>, ghost chains: set<seq<nat>>)
    returns (datas: seq<seq<byte>>, ghost chains': set<seq<nat>>, ghost trace: seq<Pos>)
    requires fp.Ready() && fp.fs.Owns(chains, fp.chain) && fp.fptr <= fp.fsize
    requires forall i :: 0 <= i < |ops| && ops[i].WriteOp? ==> |ops[i].buff| < 0x1_0000_0000
    modifies fp, fp.fs, fp.fs.win
    ensures fp.Ready() && fp.Cursor() && fp.fptr <= fp.fsize && fp.SameOthers(chains, chains')
    ensures IsTrace(ModeOf(fp), trace, ops, |ops|) && trace[0] == old(PosOf(fp)) && trace[|ops|] == PosOf(fp)
    ensures ModeOf(fp) == old(ModeOf(fp)) && OnlyChanged(fp.fs.g, old(fp.fs.logical), fp.fs.logical, fp.sects)
    ensures |datas| == |ops| && Lengths(trace, ops, datas)
    ensures old(fp.InStep()) && NoWrites(ops, |ops|) ==>
              fp.InStep() && fp.bytes == old(fp.bytes) && Delivered(fp.bytes, trace, ops, datas)
  {
    hide File.Valid0, Represents, File.SectsGood;
    datas, chains', trace := [], chains, [PosOf(fp)];
    var i := 0;
    while i < |ops|
      invariant |datas| == i && Lengths(trace, ops, datas)
      invariant old(fp.InStep()) && NoWrites(ops, i) ==>
                  fp.InStep() && fp.bytes == old(fp.bytes) && Delivered(fp.bytes, trace, ops, datas)
      invariant 0 <= i <= |ops| && fp.Ready() && fp.Cursor() && fp.fptr <= fp.fsize && fp.SameOthers(chains, chains')
      invariant IsTrace(ModeOf(fp), trace, ops, i) && trace[0] == old(PosOf(fp)) && trace[i] == PosOf(fp)
      invariant ModeOf(fp) == old(ModeOf(fp)) && OnlyChanged(fp.fs.g, old(fp.fs.logical), fp.fs.logical, fp.sects)
    {
      hide Moves, IsTrace, Delivered;
      var data;
      data, chains' := Operate(fp, ops[i], chains');
      TraceMore(ModeOf(fp), trace, ops, i, PosOf(fp));
      if old(fp.InStep()) && NoWrites(ops, i + 1) {
        DeliveredMore(fp.bytes, trace, ops, datas, PosOf(fp), data);
      }
      datas := datas + [data];
      trace := trace + [PosOf(fp)];
      i := i + 1;
    }
  }

  method Operate(fp: File, op: Op, ghost chains: set<seq<nat>>)
    returns (data: seq<byte>, ghost chains': set<seq<nat>>)
    requires fp.Ready() && fp.fs.Owns(chains, fp.chain) && fp.fptr <= fp.fsize
             && (op.WriteOp? ==> |op.buff| < 0x1_0000_0000)
    modifies fp, fp.fs, fp.fs.win
    ensures fp.Ready() && fp.fptr <= fp.fsize && fp.SameOthers(chains, chains')
    ensures Moves(ModeOf(fp), op, old(PosOf(fp)), PosOf(fp)) && ModeOf(fp) == old(ModeOf(fp))
    ensures OnlyChanged(fp.fs.g, old(fp.fs.logical), fp.fs.logical, fp.sects)
    ensures op.ReadOp? ==> old(fp.fptr) + |data| == fp.fptr
    ensures old(fp.InStep()) && !op.WriteOp? ==> fp.InStep() && fp.bytes == old(fp.bytes) && fp.fptr <= |fp.bytes|
    ensures old(fp.InStep()) && op.ReadOp? ==> data == fp.bytes[old(fp.fptr)..fp.fptr]
  {
    data, chains' := [], chains;
    match op
    case ReadOp(btr) =>
      var res;
      res, data := fp.Read(btr);
    case WriteOp(buff) =>
      chains' := PerformWrite(fp, buff, chains);
    case SeekOp(target) =>
      var _ := fp.Seek(target);
  }

  method PerformWrite(fp: File, buff: seq<byte>, ghost chains: set<seq<nat>>) returns (ghost chains': set<seq<nat>>)
    requires fp.Ready() && fp.fs.Owns(chains, fp.chain) && fp.fptr <= fp.fsize && |buff| < 0x1_0000_0000
    modifies fp, fp.fs, fp.fs.win
    ensures fp.Ready() && fp.fptr <= fp.fsize && fp.SameOthers(chains, chains')
    ensures Moves(ModeOf(fp), WriteOp(buff), old(PosOf(fp)), PosOf(fp)) && ModeOf(fp) == old(ModeOf(fp))
    ensures OnlyChanged(fp.fs.g, old(fp.fs.logical), fp.fs.logical, fp.sects)
  {
    ghost var fat, s, p := fp.fs.fat, fp.chain, PosOf(fp);
    var res, bw;
    res, bw, chains' := fp.Write(buff, chains);
    if forall c :: 2 <= c < |fat| ==> fat[c] != 0 {
      NoFreeStays(fat, fp.fs.fat, chains, chains', s, fp.chain);
    }
    assert Written(p, bw, if res == Ok then |buff| else 0, PosOf(fp));
  }

  /** Appending: a seek to the end and a write, with the window on no sector of the file, as an open leaves it. */
  method Append(fp: File, buff: seq<byte>, ghost chains: set<seq<nat>>) returns (n: nat, ghost chains': set<seq<nat>>)
    requires fp.Ready() && fp.fs.Owns(chains, fp.chain) && fp.fptr <= fp.fsize && fp.canWrite && !fp.failed
    requires fp.fs.Coherent() && fp.fs.winsect !in fp.sects && |buff| < 0x1_0000_0000
    modifies fp, fp.fs, fp.fs.win
    ensures fp.Ready() && fp.SameOthers(chains, chains') && n <= |buff| && fp.bytes == old(fp.bytes) + buff[..n]
    ensures n < |buff| ==> fp.fs.NoFree() || 0x1_0000_0000 <= old(fp.fsize) + |buff|
    ensures OnlyChanged(fp.fs.g, old(fp.fs.logical), fp.fs.logical, fp.sects)
  {
    hide Represents;
    var res := fp.Seek(fp.fsize);
    res, n, chains' := fp.Write(buff, chains);
  }
}
