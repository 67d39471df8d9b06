/** A file as a sequence of bytes: the sectors of its cluster chain, in order, cut at the file size. */
module FileData {
  import opened Bytes
  import opened Steps
  import opened Volume
  import opened Chains

  ghost function ClusterSects(g: Geometry, c: nat): (r: seq<nat>)
    ensures |r| == g.csize
  {
    seq(g.csize, (i: nat) requires i < g.csize => g.SectOf(c, i))
  }

  // The sectors of a chain, in order.
  ghost function ChainSects(g: Geometry, s: seq<nat>): (r: seq<nat>)
    ensures |r| == Times(|s|, g.csize)
  {
    if s == [] then [] else ChainSects(g, s[..|s| - 1]) + ClusterSects(g, s[|s| - 1])
  }

  // sects are the sectors of chain s.
  ghost predicate AreSects(g: Geometry, s: seq<nat>, sects: seq<nat>) {
    && |sects| == Times(|s|, g.csize)
    && forall q {:trigger ChainSects(g, s)[q]} :: 0 <= q < |sects| ==> sects[q] == ChainSects(g, s)[q]
  }

  lemma SectsAre(g: Geometry, s: seq<nat>, sects: seq<nat>)
    ensures AreSects(g, s, sects) <==> sects == ChainSects(g, s)
  {
  }

  lemma ChainSectsAppend(g: Geometry, s: seq<nat>, c: nat)
    ensures ChainSects(g, s + [c]) == ChainSects(g, s) + ClusterSects(g, c)
  {
    assert (s + [c])[..|s|] == s;
  }

  // Sector j of the chain's cluster k.
  lemma {:induction false} ChainSectAt(g: Geometry, s: seq<nat>, k: nat, j: nat)
    requires k < |s| && j < g.csize
    ensures Times(k, g.csize) + j < Times(|s|, g.csize)
    ensures ChainSects(g, s)[Times(k, g.csize) + j] == g.ClusterSect(s[k]) + j
  {
    if k < |s| - 1 {
      ChainSectAt(g, s[..|s| - 1], k, j);
    }
  }

  // Every sector of a chain is a sector of one of its clusters.
  lemma {:induction false} ClusterOfSect(g: Geometry, s: seq<nat>, q: nat) returns (k: nat, j: nat)
    requires q < Times(|s|, g.csize)
    ensures k < |s| && j < g.csize && q == Times(k, g.csize) + j
    ensures ChainSects(g, s)[q] == g.ClusterSect(s[k]) + j
  {
    if q < Times(|s| - 1, g.csize) {
      k, j := ClusterOfSect(g, s[..|s| - 1], q);
    } else {
      k, j := |s| - 1, q - Times(|s| - 1, g.csize);
    }
  }

  // The sectors of a chain lie in the data area ...
  lemma ChainSectInData(g: Geometry, total: nat, fat: seq<nat>, s: seq<nat>, q: nat)
    requires g.Valid(total) && |fat| == g.maxClust && IsChain(fat, s) && q < Times(|s|, g.csize)
    ensures g.CopiesEnd() <= g.database <= ChainSects(g, s)[q] < total && g.Addressable(ChainSects(g, s)[q], total)
  {
    var k, j := ClusterOfSect(g, s, q);
    assert LinkAt(fat, s, k);
    ClusterInData(g, total, s[k], j);
  }

  // ... are all different ...
  lemma ChainSectsInjective(g: Geometry, fat: seq<nat>, s: seq<nat>, p: nat, q: nat)
    requires |fat| == g.maxClust && IsChain(fat, s) && p < Times(|s|, g.csize) && q < Times(|s|, g.csize)
    requires ChainSects(g, s)[p] == ChainSects(g, s)[q]
    ensures p == q
  {
    var k, i := ClusterOfSect(g, s, p);
    var m, j := ClusterOfSect(g, s, q);
    assert LinkAt(fat, s, k) && LinkAt(fat, s, m);
    ClustersDisjoint(g, s[k], i, s[m], j);
    if k < m {
      ChainAcyclic(fat, s, k, m);
    } else if m < k {
      ChainAcyclic(fat, s, m, k);
    }
  }

  // ... and shared with no other chain.
  lemma ChainSectsDisjoint(g: Geometry, fat: seq<nat>, s: seq<nat>, t: seq<nat>, p: nat, q: nat)
    requires |fat| == g.maxClust && IsChain(fat, s) && IsChain(fat, t) && NoShared(s, t)
    requires p < Times(|s|, g.csize) && q < Times(|t|, g.csize)
    ensures ChainSects(g, s)[p] != ChainSects(g, t)[q]
  {
    var k, i := ClusterOfSect(g, s, p);
    var m, j := ClusterOfSect(g, t, q);
    assert LinkAt(fat, s, k) && LinkAt(fat, t, m) && s[k] in s && t[m] in t;
    if ChainSects(g, s)[p] == ChainSects(g, t)[q] {
      ClustersDisjoint(g, s[k], i, t[m], j);
    }
  }

  // The start cluster and the size of a file, in its directory entry.
  function StartCluster(entry: seq<byte>): nat
    requires |entry| == 32
  {
    0x1_0000 * LdWord(entry, 20) + LdWord(entry, 26)
  }

  function FileSize(entry: seq<byte>): (n: nat)
    requires |entry| == 32
    ensures n < 0x1_0000_0000
  {
    LdDword(entry, 28)
  }

  ghost predicate Covered(d: Disk, sects: seq<nat>, n: nat) {
    n <= |sects| * SECTOR_SIZE && forall q :: 0 <= q < |sects| ==> sects[q] < |d|
  }

  // The first n bytes of the sectors, one behind the other.
  ghost function FileBytes(d: Disk, sects: seq<nat>, n: nat): (r: seq<byte>)
    requires Covered(d, sects, n)
    ensures |r| == n
  {
    seq(n, p requires 0 <= p < n => d[sects[p / SECTOR_SIZE]][p % SECTOR_SIZE])
  }

  // bytes are what disk d holds in the sectors, from the first one on.
  ghost predicate Holds(d: Disk, sects: seq<nat>, bytes: seq<byte>) {
    && Covered(d, sects, |bytes|)
    && forall p {:trigger FileBytes(d, sects, |bytes|)[p]} ::
         0 <= p < |bytes| ==> bytes[p] == FileBytes(d, sects, |bytes|)[p]
  }

  lemma HoldsBytes(d: Disk, sects: seq<nat>, bytes: seq<byte>)
    ensures Holds(d, sects, bytes) <==> Covered(d, sects, |bytes|) && bytes == FileBytes(d, sects, |bytes|)
  {
  }

  // s with data written over it at o, growing if data goes past the end.
  function Overwrite(s: seq<byte>, o: nat, data: seq<byte>): (r: seq<byte>)
    requires o <= |s|
    ensures |r| == if o + |data| <= |s| then |s| else o + |data|
  {
    seq(if o + |data| <= |s| then |s| else o + |data|, p requires 0 <= p && (p < |s| || p < o + |data|) =>
      if o <= p < o + |data| then data[p - o] else s[p])
  }

  // Writing data piece by piece: the first n bytes, then the next k.
  lemma OverwriteOn(s: seq<byte>, o: nat, data: seq<byte>, n: nat, k: nat, t: seq<byte>, u: seq<byte>)
    requires o <= |s| && n + k <= |data|
    requires t == Overwrite(s, o, data[..n]) && u == Overwrite(t, o + n, data[n..][..k])
    ensures u == Overwrite(s, o, data[..n + k])
  {
  }

  lemma OverwriteTwice(s: seq<byte>, a: seq<byte>, b: seq<byte>, t: seq<byte>, u: seq<byte>)
    requires t == Overwrite(s, 0, a) && u == Overwrite(t, |a|, b)
    ensures u == Overwrite(s, 0, a + b)
  {
  }

  lemma OverwriteNone(s: seq<byte>, o: nat, data: seq<byte>)
    requires o <= |s|
    ensures Overwrite(s, o, data[..0]) == s
  {
  }

  lemma DivMod512(p: nat, q: nat, o: nat)
    requires p == SECTOR_SIZE * q + o && o < SECTOR_SIZE
    ensures p / SECTOR_SIZE == q && p % SECTOR_SIZE == o
  {
  }

  // Part of one sector of the file.
  lemma PartOfSector(d: Disk, sects: seq<nat>, n: nat, q: nat, o: nat, len: nat)
    requires Covered(d, sects, n) && q < |sects| && o + len <= SECTOR_SIZE && SECTOR_SIZE * q + o + len <= n
    ensures FileBytes(d, sects, n)[SECTOR_SIZE * q + o..SECTOR_SIZE * q + o + len] == d[sects[q]][o..o + len]
  {
    var at := SECTOR_SIZE * q + o;
    forall p | at <= p < at + len ensures FileBytes(d, sects, n)[p] == d[sects[q]][o..o + len][p - at] {
      DivMod512(p, q, o + (p - at));
    }
  }

  // The file's sectors q .. q + cc are the disk's sectors sect .. sect + cc.
  ghost predicate Consecutive(sects: seq<nat>, q: nat, sect: nat, cc: nat) {
    q + cc <= |sects| && forall k :: q <= k < q + cc ==> sects[k] == sect + (k - q)
  }

  lemma InRun(sects: seq<nat>, q: nat, sect: nat, cc: nat, s: nat)
    requires Consecutive(sects, q, sect, cc) && sect <= s < sect + cc
    ensures exists k :: q <= k < q + cc && sects[k] == s
  {
    assert sects[q + (s - sect)] == s;
  }

  lemma NotInRun(sects: seq<nat>, q: nat, sect: nat, cc: nat, k: nat)
    requires Consecutive(sects, q, sect, cc) && AllDifferent(sects) && k < |sects| && !(q <= k < q + cc)
    ensures !(sect <= sects[k] < sect + cc)
  {
    if sect <= sects[k] < sect + cc {
      assert At(k) && At(q + (sects[k] - sect));
    }
  }

  // Whole sectors of the file that lie one behind the other on the disk.
  lemma RunOfSectors(d: Disk, sects: seq<nat>, n: nat, q: nat, sect: nat, cc: nat)
    requires Covered(d, sects, n) && Consecutive(sects, q, sect, cc) && SECTOR_SIZE * (q + cc) <= n
    requires sect + cc <= |d|
    ensures FileBytes(d, sects, n)[SECTOR_SIZE * q..SECTOR_SIZE * (q + cc)] == GetSectors(d, sect, cc)
  {
    var got := GetSectors(d, sect, cc);
    var at := SECTOR_SIZE * q;
    forall p | at <= p < at + cc * SECTOR_SIZE ensures FileBytes(d, sects, n)[p] == got[p - at] {
      var k, o := (p - at) / SECTOR_SIZE, (p - at) % SECTOR_SIZE;
      DivMod512(p, q + k, o);
      assert sects[q + k] == sect + k;
    }
  }

  ghost predicate AllDifferent(sects: seq<nat>) {
    forall p, q {:trigger At(p), At(q)} ::
      At(p) && At(q) && 0 <= p < |sects| && 0 <= q < |sects| && sects[p] == sects[q] ==> p == q
  }

  // Rewriting part of one sector overwrites that part of the file. Where the file grows into the sector,
  // the sector's other bytes may be anything.
  lemma SectorRewritten(d: Disk, sects: seq<nat>, n: nat, q: nat, o: nat, data: seq<byte>, shown: Sector)
    requires Covered(d, sects, n) && AllDifferent(sects) && q < |sects|
    requires o + |data| <= SECTOR_SIZE && SECTOR_SIZE * q + o <= n
    requires shown == d[sects[q]] || (o == 0 && n == SECTOR_SIZE * q)
    ensures var d' := d[sects[q] := Patch(shown, o, data)];
            var n' := if n < SECTOR_SIZE * q + o + |data| then SECTOR_SIZE * q + o + |data| else n;
            && Covered(d', sects, n')
            && FileBytes(d', sects, n') == Overwrite(FileBytes(d, sects, n), SECTOR_SIZE * q + o, data)
  {
    var at := SECTOR_SIZE * q + o;
    var n' := if n < at + |data| then at + |data| else n;
    var sector := Patch(shown, o, data);
    var d' := d[sects[q] := sector];
    var after, before := FileBytes(d', sects, n'), FileBytes(d, sects, n);
    forall p | 0 <= p < n' ensures after[p] == Overwrite(before, at, data)[p] {
      var k, i := p / SECTOR_SIZE, p % SECTOR_SIZE;
      if k != q {
        assert At(k) && At(q);
      } else {
        assert p == SECTOR_SIZE * q + i;
      }
    }
  }

  // Writing whole sectors that lie one behind the other on the disk overwrites that part of the file.
  lemma SectorsRewritten(d: Disk, sects: seq<nat>, n: nat, q: nat, sect: nat, data: seq<byte>)
    requires Covered(d, sects, n) && AllDifferent(sects) && |data| % SECTOR_SIZE == 0
    requires Consecutive(sects, q, sect, |data| / SECTOR_SIZE) && SECTOR_SIZE * q <= n
    ensures var n' := if n < SECTOR_SIZE * q + |data| then SECTOR_SIZE * q + |data| else n;
            && Covered(PutSectors(d, sect, data), sects, n')
            && FileBytes(PutSectors(d, sect, data), sects, n') == Overwrite(FileBytes(d, sects, n), SECTOR_SIZE * q,
               data)
  {
    var at, cc := SECTOR_SIZE * q, |data| / SECTOR_SIZE;
    var n' := if n < at + |data| then at + |data| else n;
    var d' := PutSectors(d, sect, data);
    var after, before := FileBytes(d', sects, n'), FileBytes(d, sects, n);
    forall p | 0 <= p < n' ensures after[p] == Overwrite(before, at, data)[p] {
      var k, i := p / SECTOR_SIZE, p % SECTOR_SIZE;
      if q <= k < q + cc {
        assert sects[k] == sect + (k - q);
        assert d'[sects[k]] == data[(k - q) * SECTOR_SIZE..(k - q + 1) * SECTOR_SIZE];
        assert p - at == (k - q) * SECTOR_SIZE + i;
      } else {
        NotInRun(sects, q, sect, cc, k);
        assert d'[sects[k]] == d[sects[k]];
        assert p < at || at + |data| <= p;
      }
    }
  }

  // A file's bytes depend on its own sectors only; more sectors behind its end change nothing.
  lemma SameBytes(d: Disk, d': Disk, sects: seq<nat>, more: seq<nat>, n: nat)
    requires Covered(d, sects, n) && |d'| == |d| && forall q :: 0 <= q < |sects| ==> d'[sects[q]] == d[sects[q]]
    requires forall q :: 0 <= q < |more| ==> more[q] < |d|
    ensures Covered(d', sects + more, n) && FileBytes(d', sects + more, n) == FileBytes(d, sects, n)
  {
  }

  // The sectors of a chain, as the lemmas above want them.
  lemma ChainSectsGood(g: Geometry, d: Disk, fat: seq<nat>, s: seq<nat>)
    requires g.Valid(|d|) && |fat| == g.maxClust && (s == [] || IsChain(fat, s))
    ensures AllDifferent(ChainSects(g, s)) && Covered(d, ChainSects(g, s), Times(|s|, g.csize) * SECTOR_SIZE)
    ensures forall q :: 0 <= q < |ChainSects(g, s)| ==> g.CopiesEnd() <= g.database <= ChainSects(g, s)[q]
  {
    var sects := ChainSects(g, s);
    forall q | 0 <= q < |sects| ensures g.CopiesEnd() <= g.database <= sects[q] < |d| {
      ChainSectInData(g, |d|, fat, s, q);
    }
    forall p, q | 0 <= p < |sects| && 0 <= q < |sects| && sects[p] == sects[q] ensures p == q {
      ChainSectsInjective(g, fat, s, p, q);
    }
  }

  // The sectors of one cluster lie one behind the other.
  lemma ClusterRun(g: Geometry, s: seq<nat>, k: nat, j: nat, cc: nat)
    requires k < |s| && j + cc <= g.csize
    ensures Consecutive(ChainSects(g, s), Times(k, g.csize) + j, g.ClusterSect(s[k]) + j, cc)
  {
    TimesOrdered(k, |s|, g.csize);
    forall q | Times(k, g.csize) + j <= q < Times(k, g.csize) + j + cc
      ensures ChainSects(g, s)[q] == g.ClusterSect(s[k]) + (q - Times(k, g.csize))
    {
      ChainSectAt(g, s, k, q - Times(k, g.csize));
    }
  }

  // Nothing changed outside the FATs and the given sectors.
  ghost predicate OnlyChanged(g: Geometry, d: Disk, e: Disk, sects: seq<nat>) {
    && |d| == |e|
    && forall s {:trigger At(s)} ::
         At(s) && 0 <= s < |d| && (s < g.fatbase || g.CopiesEnd() <= s) && s !in sects ==> d[s] == e[s]
  }

  ghost predicate Grown(s: seq<nat>, t: seq<nat>) {
    |t| == |s| + 1 && t[..|s|] == s
  }

  // Allocating clusters changes nothing in the file as it was.
  lemma GrownBytes(g: Geometry, d: Disk, d': Disk, s: seq<nat>, t: seq<nat>, n: nat)
    requires s == t || Grown(s, t)
    requires Covered(d, ChainSects(g, s), n) && SameOutsideFat(g, d, d')
    requires forall q :: 0 <= q < |ChainSects(g, s)| ==> g.CopiesEnd() <= ChainSects(g, s)[q]
    requires forall q :: 0 <= q < |ChainSects(g, t)| ==> ChainSects(g, t)[q] < |d|
    ensures ChainSects(g, s) <= ChainSects(g, t)
    ensures Covered(d', ChainSects(g, t), n) && FileBytes(d', ChainSects(g, t), n) == FileBytes(d, ChainSects(g, s), n)
  {
    var sects := ChainSects(g, s);
    if Grown(s, t) {
      assert t == s + [t[|s|]];
      ChainSectsAppend(g, s, t[|s|]);
    }
    forall q | 0 <= q < |sects| ensures d'[sects[q]] == d[sects[q]] {
      assert At(sects[q]);
    }
  }

  lemma PutOnlyChanges(g: Geometry, d: Disk, sects: seq<nat>, q: nat, sect: nat, data: seq<byte>)
    requires |data| % SECTOR_SIZE == 0 && Consecutive(sects, q, sect, |data| / SECTOR_SIZE)
    ensures OnlyChanged(g, d, PutSectors(d, sect, data), sects)
  {
    forall s | 0 <= s < |d| && s !in sects ensures PutSectors(d, sect, data)[s] == d[s] {
      if sect <= s < sect + |data| / SECTOR_SIZE {
        InRun(sects, q, sect, |data| / SECTOR_SIZE, s);
      }
    }
  }

  lemma OnlyChangedTrans(g: Geometry, d: Disk, e: Disk, f: Disk, sects: seq<nat>)
    requires SameOutsideFat(g, d, e) && OnlyChanged(g, e, f, sects)
    ensures OnlyChanged(g, d, f, sects)
  {
  }

  // Both disks hold the same in these sectors.
  ghost predicate SameOn(d: Disk, e: Disk, sects: seq<nat>) {
    |d| == |e| && forall q :: 0 <= q < |sects| && sects[q] < |d| ==> d[sects[q]] == e[sects[q]]
  }

  /** Writing one file leaves every other file, and every directory, alone. */
  lemma OtherChainsUntouched(g: Geometry, d: Disk, e: Disk, fat: seq<nat>, chains: set<seq<nat>>, s: seq<nat>,
      t: seq<nat>)
    requires g.Valid(|d|) && |fat| == g.maxClust && Represents(fat, chains) && t in chains && t != s
             && (s != [] ==> s in chains)
    requires OnlyChanged(g, d, e, ChainSects(g, s))
    ensures SameOn(d, e, ChainSects(g, t))
  {
    var sects := ChainSects(g, t);
    forall q | 0 <= q < |sects| ensures sects[q] < |d| && d[sects[q]] == e[sects[q]] {
      ChainSectInData(g, |d|, fat, t, q);
      assert At(sects[q]);
      NotInChain(g, fat, s, t, q);
    }
  }

  lemma NotInChain(g: Geometry, fat: seq<nat>, s: seq<nat>, t: seq<nat>, q: nat)
    requires |fat| == g.maxClust && IsChain(fat, t) && (s == [] || (IsChain(fat, s) && NoShared(s, t)))
    requires q < Times(|t|, g.csize)
    ensures ChainSects(g, t)[q] !in ChainSects(g, s)
  {
    forall p | 0 <= p < |ChainSects(g, s)| ensures ChainSects(g, s)[p] != ChainSects(g, t)[q] {
      ChainSectsDisjoint(g, fat, s, t, p, q);
    }
  }

  /** f_sync's update of a directory entry: archive bit, write time, start cluster and size. */
  function Stamped(entry: seq<byte>, clst: nat, size: nat, tim: nat): (r: seq<byte>)
    requires |entry| == 32
    ensures |r| == 32
  {
    var attr := if entry[11] / 0x20 % 2 == 1 then entry[11] else entry[11] + 0x20;
    var hi, lo := WordBytes(clst / 0x1_0000), WordBytes(clst);
    entry[..11] + [attr as byte] + entry[12..20] + hi + DwordBytes(tim) + lo + DwordBytes(size)
  }

  // What the next f_open finds.
  lemma OpenAfterStamp(entry: seq<byte>, clst: nat, size: nat, tim: nat)
    requires |entry| == 32 && clst < 0x1_0000_0000 && size < 0x1_0000_0000
    ensures StartCluster(Stamped(entry, clst, size, tim)) == clst
    ensures FileSize(Stamped(entry, clst, size, tim)) == size
    ensures Stamped(entry, clst, size, tim)[..11] == entry[..11]
  {
    Halves(clst);
    DwordAgain(size);
    StampedParts(entry, clst, size, tim, WordBytes(clst / 0x1_0000), WordBytes(clst), DwordBytes(size));
  }

  lemma StampedParts(entry: seq<byte>, clst: nat, size: nat, tim: nat, hi: seq<byte>, lo: seq<byte>, sz: seq<byte>)
    requires |entry| == 32 && hi == WordBytes(clst / 0x1_0000) && lo == WordBytes(clst) && sz == DwordBytes(size)
    ensures var e := Stamped(entry, clst, size, tim);
            && StartCluster(e) == 0x1_0000 * Word(hi[0], hi[1]) + Word(lo[0], lo[1])
            && FileSize(e) == Dword(sz) && e[..11] == entry[..11]
  {
  }

  lemma Halves(v: nat)
    requires v < 0x1_0000_0000
    ensures var hi, lo := WordBytes(v / 0x1_0000), WordBytes(v);
            0x1_0000 * Word(hi[0], hi[1]) + Word(lo[0], lo[1]) == v
  {
    var h := v / 0x1_0000;
    WordAgain(h);
    WordAgain(v);
    CutNothing16(h);
  }

  lemma HoldsStill(d: Disk, e: Disk, sects: seq<nat>, bytes: seq<byte>)
    requires Holds(d, sects, bytes) && |e| == |d| && forall q :: 0 <= q < |sects| ==> e[sects[q]] == d[sects[q]]
    ensures Holds(e, sects, bytes)
  {
    HoldsBytes(d, sects, bytes);
    SameBytes(d, e, sects, [], |bytes|);
    assert sects + [] == sects;
  }
}
