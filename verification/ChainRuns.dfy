/** Whole runs of the allocator: create_chain and remove_chain seen as operations on a set of disjoint chains. */
module ChainRuns {
  import opened FatCodec
  import opened Volume
  import opened Chains
  import opened FatFileSystem

  // The chain of chains that cluster c is on, and c's place in it.
  lemma OnChain(fat: seq<nat>, chains: set<seq<nat>>, c: nat) returns (s: seq<nat>, i: nat)
    requires Represents(fat, chains) && 2 <= c < |fat| && fat[c] != 0
    ensures s in chains && i < |s| && s[i] == c
    ensures if i + 1 < |s| then 2 <= fat[c] == s[i + 1] < |fat| else |fat| <= fat[c]
  {
    assert InSome(chains, c);
    s :| s in chains && c in s;
    i :| 0 <= i < |s| && s[i] == c;
    assert LinkAt(fat, s, i);
    assert i + 1 < |s| ==> LinkAt(fat, s, i + 1);
  }

  /** What create_chain makes of the chains: a new one, one longer by a cluster that was free, or the same ones. */
  ghost predicate Created(chains: set<seq<nat>>, chains': set<seq<nat>>, s: seq<nat>, ncl: nat) {
    s + [ncl] in chains' && chains' - {s + [ncl]} == chains - {s} && (s == [] || s in chains)
  }

  /** create_chain on any cluster number: the chains stay disjoint, the free count stays exact, and only a full disk
      keeps a chain from being started or its last cluster from being followed by a new one. */
  method Create(fs: FatFs, clst: nat, ghost chains: set<seq<nat>>)
    returns (ncl: nat, ghost s: seq<nat>, ghost chains': set<seq<nat>>)
    requires fs.Valid() && fs.FatCoherent() && Represents(fs.fat, chains)
    modifies fs, fs.win
    ensures fs.Valid() && fs.FatCoherent() && Represents(fs.fat, chains') && (old(fs.CountExact()) ==> fs.CountExact())
    ensures SameOutsideFat(fs.g, old(fs.logical), fs.logical)
    ensures if chains' == chains then fs.fat == old(fs.fat)
            else 2 <= ncl < |fs.fat| && old(fs.fat)[ncl] == 0 && Created(chains, chains', s, ncl)
                 && if clst == 0 then s == [] else s in chains && IsLastOf(s, clst)
    ensures clst == 0 ==> if old(fs.NoFree()) then ncl == 0 && chains' == chains
              else ncl >= 2 && s == [] && chains' != chains
    ensures forall t :: t in chains && clst == t[|t| - 1] ==>
              if old(fs.NoFree()) then ncl == 0 && chains' == chains else ncl >= 2 && s == t && chains' != chains
    ensures forall t, i {:trigger t[i], t in chains} :: t in chains && 0 <= i < |t| - 1 && clst == t[i] ==>
              ncl == t[i + 1] && chains' == chains
  {
    chains', s := chains, [];
    ghost var fat := fs.fat;
    NoReservedLink(fat, chains);
    EndMark(fs.g, |fs.disk|);
    ncl := fs.CreateChain(clst);
    Followed(fat, chains, clst);
    if 2 <= clst < |fat| && fat[clst] != 0 {
      ghost var i;
      s, i := OnChain(fat, chains, clst);
    }
    if (clst == 0 || (2 <= clst < |fat| && |fat| <= fat[clst])) && ncl >= 2 {
      chains' := GrowChain(fat, chains, s, ncl, Cut(fs.g.fsType, END_OF_CHAIN));
      FreeIsInNoChain(fat, chains, ncl);
      assert (s + [ncl])[|s|] == ncl;
    }
  }

  // A cluster of a chain is used, and its link is the next one's number, or the end mark.
  lemma Followed(fat: seq<nat>, chains: set<seq<nat>>, c: nat)
    requires Represents(fat, chains)
    ensures forall t :: t in chains ==> 0 < |t| && (c == t[|t| - 1] ==> 2 <= c < |fat| <= fat[c])
    ensures forall t, i {:trigger t[i], t in chains} :: t in chains && 0 <= i < |t| - 1 && c == t[i] ==>
              2 <= c < |fat| && 2 <= fat[c] == t[i + 1] < |fat|
  {
    forall t | t in chains ensures 0 < |t| && (c == t[|t| - 1] ==> 2 <= c < |fat| <= fat[c]) {
      assert IsChain(fat, t);
      assert LinkAt(fat, t, |t| - 1);
    }
    forall t, i | t in chains && 0 <= i < |t| - 1 && c == t[i]
      ensures 2 <= c < |fat| && 2 <= fat[c] == t[i + 1] < |fat|
    {
      assert IsChain(fat, t);
      assert LinkAt(fat, t, i) && LinkAt(fat, t, i + 1);
    }
  }

  /** remove_chain on the head of a chain: exactly that chain is gone, and its clusters are free. */
  method Remove(fs: FatFs, ghost s: seq<nat>, clst: nat, ghost chains: set<seq<nat>>) returns (res: FResult)
    requires fs.Valid() && fs.FatCoherent() && Represents(fs.fat, chains) && s in chains && s != [] && clst == s[0]
    modifies fs, fs.win
    ensures res == Ok && fs.Valid() && fs.FatCoherent() && Represents(fs.fat, chains - {s})
            && fs.fat == Cleared(old(fs.fat), s)
    ensures old(fs.CountExact()) ==> fs.CountExact()
    ensures SameOutsideFat(fs.g, old(fs.logical), fs.logical)
  {
    assert LinkAt(fs.fat, s, 0);
    FreeFromHead(fs.fat, s);
    DropChain(fs.fat, chains, s);
    res := fs.RemoveChain(clst);
  }

  /** A call of the allocator: on any cluster number, or on the first cluster of a chain the caller knows of. */
  datatype Call = CreateCall(clst: nat) | RemoveCall(i: nat)

  // heads are first clusters of chains, all different.
  ghost predicate Heads(heads: seq<nat>, chains: set<seq<nat>>) {
    && (forall k :: 0 <= k < |heads| ==> HasHead(chains, heads[k]))
    && forall j, k :: 0 <= j < k < |heads| ==> heads[j] != heads[k]
  }

  ghost predicate HasHead(chains: set<seq<nat>>, h: nat) {
    exists s :: s in chains && s != [] && s[0] == h
  }

  lemma HeadsAfterCreate(heads: seq<nat>, chains: set<seq<nat>>, chains': set<seq<nat>>, s: seq<nat>, ncl: nat)
    requires Heads(heads, chains) && Created(chains, chains', s, ncl)
    ensures Heads(heads, chains')
    ensures s == [] && !InSome(chains, ncl) ==> Heads(heads + [ncl], chains')
  {
    forall k | 0 <= k < |heads| ensures HasHead(chains', heads[k]) {
      assert HasHead(chains, heads[k]);
      var t :| t in chains && t != [] && t[0] == heads[k];
      var t' := if t == s then s + [ncl] else t;
      assert t != s ==> t in chains - {s};
      assert t' in chains' && t'[0] == heads[k];
    }
    if s == [] && !InSome(chains, ncl) {
      assert [] + [ncl] in chains' && ([] + [ncl])[0] == ncl;
      forall k | 0 <= k < |heads| ensures heads[k] != ncl {
        assert HasHead(chains, heads[k]);
        var t :| t in chains && t != [] && t[0] == heads[k];
        assert t[0] in t;
      }
    }
  }

  lemma HeadsAfterRemove(heads: seq<nat>, chains: set<seq<nat>>, s: seq<nat>, i: nat)
    requires Heads(heads, chains) && i < |heads| && s in chains && s != [] && s[0] == heads[i]
    ensures Heads(heads[..i] + heads[i + 1..], chains - {s})
  {
    var rest := heads[..i] + heads[i + 1..];
    forall k | 0 <= k < |rest| ensures HasHead(chains - {s}, rest[k]) {
      var k' := if k < i then k else k + 1;
      assert rest[k] == heads[k'];
      assert HasHead(chains, heads[k']);
      var t :| t in chains && t != [] && t[0] == heads[k'];
      assert t != s;
    }
  }

  /** The allocator seen from outside: the chains on the disk, and the first clusters the caller remembers. */
  datatype State = State(heads: seq<nat>, chains: set<seq<nat>>)

  // Every cluster is on a chain.
  ghost predicate AllUsed(chains: set<seq<nat>>, n: nat) {
    forall c :: 2 <= c < n ==> InSome(chains, c)
  }

  lemma NoFreeIsAllUsed(fs: FatFs, chains: set<seq<nat>>)
    requires fs.Valid() && Represents(fs.fat, chains)
    ensures fs.NoFree() <==> AllUsed(chains, fs.g.maxClust)
  {
    if AllUsed(chains, fs.g.maxClust) {
      forall c | 2 <= c < fs.g.maxClust ensures fs.fat[c] != 0 {
        if fs.fat[c] == 0 {
          FreeIsInNoChain(fs.fat, chains, c);
        }
      }
    }
  }

  ghost predicate IsLastOf(t: seq<nat>, clst: nat) {
    t != [] && t[|t| - 1] == clst
  }

  // Chain t, or a new one for t == [], gets cluster ncl, which was free.
  ghost predicate Grows(st: State, clst: nat, t: seq<nat>, ncl: nat, n: nat, st': State) {
    && (if clst == 0 then t == [] else t in st.chains && IsLastOf(t, clst)) && 2 <= ncl < n && !InSome(st.chains, ncl)
    && st'.chains == st.chains - {t} + {t + [ncl]} && st'.heads == if clst == 0 then st.heads + [ncl] else st.heads
  }

  /** One call, seen from outside: it does what it is for unless the disk is full, and nothing else. */
  ghost predicate Step(st: State, call: Call, st': State, n: nat) {
    match call
    case CreateCall(clst) =>
      if AllUsed(st.chains, n) || (clst != 0 && forall t :: t in st.chains ==> !IsLastOf(t, clst)) then st' == st
      else exists t, ncl :: Grows(st, clst, t, ncl, n, st')
    case RemoveCall(i) =>
      if i >= |st.heads| then st' == st
      else exists s :: s in st.chains && s != [] && s[0] == st.heads[i]
                       && st' == State(st.heads[..i] + st.heads[i + 1..], st.chains - {s})
  }

  // The state is what the FAT holds.
  ghost predicate Holds(fs: FatFs, st: State)
    reads fs, fs.win
  {
    fs.Valid() && fs.FatCoherent() && fs.CountExact() && Represents(fs.fat, st.chains) && Heads(st.heads, st.chains)
  }

  /** Any sequence of create_chain and remove_chain calls is a run of the allocator seen from outside: the FAT always
      represents pairwise disjoint chains, and a known free count is always the number of free clusters. */
  method Run(fs: FatFs, calls: seq<Call>, heads0: seq<nat>, ghost chains: set<seq<nat>>)
    returns (heads: seq<nat>, ghost trace: seq<State>)
    requires Holds(fs, State(heads0, chains))
    modifies fs, fs.win
    ensures |trace| == |calls| + 1 && trace[0] == State(heads0, chains) && Holds(fs, trace[|calls|])
            && trace[|calls|].heads == heads
    ensures forall k :: 0 <= k < |calls| ==> Step(trace[k], calls[k], trace[k + 1], fs.g.maxClust)
    ensures SameOutsideFat(fs.g, old(fs.logical), fs.logical)
  {
    heads, trace := heads0, [State(heads0, chains)];
    var k := 0;
    while k < |calls|
      invariant 0 <= k <= |calls| && |trace| == k + 1 && trace[0] == State(heads0, chains)
      invariant Holds(fs, trace[k]) && trace[k].heads == heads
      invariant forall j :: 0 <= j < k ==> Step(trace[j], calls[j], trace[j + 1], fs.g.maxClust)
      invariant SameOutsideFat(fs.g, old(fs.logical), fs.logical)
    {
      ghost var chains';
      heads, chains' := Perform(fs, calls[k], heads, trace[k].chains);
      trace := trace + [State(heads, chains')];
      k := k + 1;
    }
  }

  method Perform(fs: FatFs, call: Call, heads0: seq<nat>, ghost chains: set<seq<nat>>)
    returns (heads: seq<nat>, ghost chains': set<seq<nat>>)
    requires Holds(fs, State(heads0, chains))
    modifies fs, fs.win
    ensures Holds(fs, State(heads, chains')) && Step(State(heads0, chains), call, State(heads, chains'), fs.g.maxClust)
    ensures SameOutsideFat(fs.g, old(fs.logical), fs.logical)
  {
    match call
    case CreateCall(clst) =>
      heads, chains' := PerformCreate(fs, clst, heads0, chains);
    case RemoveCall(i) =>
      heads, chains' := heads0, chains;
      if i < |heads0| {
        assert HasHead(chains, heads0[i]);
        ghost var s :| s in chains && s != [] && s[0] == heads0[i];
        HeadsAfterRemove(heads0, chains, s, i);
        var _ := Remove(fs, s, heads0[i], chains);
        heads := heads0[..i] + heads0[i + 1..];
        chains' := chains - {s};
      }
  }

  method PerformCreate(fs: FatFs, clst: nat, heads0: seq<nat>, ghost chains: set<seq<nat>>)
    returns (heads: seq<nat>, ghost chains': set<seq<nat>>)
    requires Holds(fs, State(heads0, chains))
    modifies fs, fs.win
    ensures Holds(fs, State(heads, chains'))
            && Step(State(heads0, chains), CreateCall(clst), State(heads, chains'), fs.g.maxClust)
    ensures SameOutsideFat(fs.g, old(fs.logical), fs.logical)
  {
    ghost var s, fat := [], fs.fat;
    NoFreeIsAllUsed(fs, chains);
    var ncl;
    ncl, s, chains' := Create(fs, clst, chains);
    heads := heads0;
    if clst == 0 && ncl != 0 {
      heads := heads + [ncl];
    }
    if chains' != chains {
      FreeIsInNoChain(fat, chains, ncl);
      HeadsAfterCreate(heads0, chains, chains', s, ncl);
      GrownSet(chains, chains', s, ncl);
      assert Grows(State(heads0, chains), clst, s, ncl, fs.g.maxClust, State(heads, chains'));
    }
  }

  lemma GrownSet(chains: set<seq<nat>>, chains': set<seq<nat>>, s: seq<nat>, ncl: nat)
    requires Created(chains, chains', s, ncl) && !InSome(chains, ncl)
    ensures chains' == chains - {s} + {s + [ncl]}
  {
    assert (s + [ncl])[|s|] == ncl;
    assert chains' == chains' - {s + [ncl]} + {s + [ncl]};
  }
}
