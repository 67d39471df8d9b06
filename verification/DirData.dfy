/** The slots of a directory, in the sectors of its table. */
module DirData {
  import opened Bytes
  import opened FatCodec
  import opened Steps
  import opened Volume
  import opened Chains
  import opened FileData
  import opened LongNames

  const SLOTS: nat := 16

  // Names slot r of a table's sector q where a fact about all slots is to be used.
  ghost predicate AtSlot(q: int, r: int) {
    true
  }

  function SlotIn(sector: Sector, r: nat): Slot
    requires r < SLOTS
  {
    sector[32 * r..32 * r + 32]
  }

  // slots are what disk d holds in the sectors, sixteen to a sector.
  ghost predicate HoldsSlots(d: Disk, sects: seq<nat>, slots: seq<Slot>) {
    && |slots| == SLOTS * |sects|
    && (forall q :: 0 <= q < |sects| ==> sects[q] < |d|)
    && forall q, r {:trigger AtSlot(q, r)} :: AtSlot(q, r) && 0 <= q < |sects| && 0 <= r < SLOTS ==>
         slots[SLOTS * q + r] == SlotIn(d[sects[q]], r)
  }

  // The sectors of a table of n slots: all different, and behind the FATs.
  ghost predicate TableSects(g: Geometry, total: nat, sects: seq<nat>) {
    && 0 < |sects| <= 4096 && AllDifferent(sects)
    && forall q :: 0 <= q < |sects| ==> g.CopiesEnd() <= sects[q] < total && g.Addressable(sects[q], total)
  }

  // The sectors of the static root directory.
  ghost function RootSects(g: Geometry): (r: seq<nat>)
    ensures |r| == g.nRootdir / SLOTS && forall k :: 0 <= k < |r| ==> r[k] == g.dirbase + k
  {
    seq(g.nRootdir / SLOTS, (k: nat) requires k < g.nRootdir / SLOTS => RootSect(g, k))
  }

  ghost function RootSect(g: Geometry, k: nat): nat {
    g.dirbase + k
  }

  // The sectors of a table: those of its chain, or the static ones if it has none.
  ghost function SectsOf(g: Geometry, chain: seq<nat>): seq<nat> {
    if chain == [] then RootSects(g) else ChainSects(g, chain)
  }

  lemma RootTable(g: Geometry, d: Disk)
    requires g.Valid(|d|) && g.fsType != Fat32 && 0 < g.nRootdir
    ensures TableSects(g, |d|, RootSects(g))
  {
    forall q | 0 <= q < |RootSects(g)|
      ensures g.CopiesEnd() <= RootSects(g)[q] < |d| && g.Addressable(RootSects(g)[q], |d|)
    {
      HomeOfHome(g, RootSects(g)[q]);
    }
  }

  lemma SlotPlace(i: nat, q: nat, r: nat)
    requires i == SLOTS * q + r && r < SLOTS
    ensures i / SLOTS == q && i % SLOTS == r
  {
  }

  lemma SlotShown(d: Disk, sects: seq<nat>, slots: seq<Slot>, q: nat, r: nat)
    requires HoldsSlots(d, sects, slots) && q < |sects| && r < SLOTS
    ensures slots[SLOTS * q + r] == SlotIn(d[sects[q]], r)
  {
    assert AtSlot(q, r);
  }

  lemma PatchedSlot(sector: Sector, r: nat, slot: Slot, k: nat)
    requires r < SLOTS && k < SLOTS
    ensures SlotIn(Patch(sector, 32 * r, slot), k) == if k == r then slot else SlotIn(sector, k)
  {
    var p := Patch(sector, 32 * r, slot);
    forall j | 0 <= j < 32 ensures SlotIn(p, k)[j] == (if k == r then slot else SlotIn(sector, k))[j] {
      assert SlotIn(p, k)[j] == p[32 * k + j];
    }
  }

  // Storing a slot into its sector.
  lemma SlotStored(d: Disk, sects: seq<nat>, slots: seq<Slot>, q: nat, r: nat, slot: Slot, d': Disk)
    requires HoldsSlots(d, sects, slots) && AllDifferent(sects) && q < |sects| && r < SLOTS
    requires d' == d[sects[q] := Patch(d[sects[q]], 32 * r, slot)]
    ensures HoldsSlots(d', sects, slots[SLOTS * q + r := slot])
  {
    var slots' := slots[SLOTS * q + r := slot];
    forall p, k | AtSlot(p, k) && 0 <= p < |sects| && 0 <= k < SLOTS
      ensures slots'[SLOTS * p + k] == SlotIn(d'[sects[p]], k)
    {
      assert AtSlot(p, k) && At(p) && At(q);
      if p == q {
        PatchedSlot(d[sects[q]], r, slot, k);
      }
    }
  }

  function ZeroSlot(): Slot {
    seq(32, _ => 0)
  }

  ghost predicate IsZero(sector: Sector) {
    forall k :: 0 <= k < SECTOR_SIZE ==> sector[k] == 0
  }

  function ZeroSlots(n: nat): (r: seq<Slot>)
    ensures |r| == n && forall k :: 0 <= k < n ==> r[k] == ZeroSlot()
  {
    if n == 0 then [] else ZeroSlots(n - 1) + [ZeroSlot()]
  }

  // A table with zero sectors added to it.
  lemma SlotsGrown(d: Disk, e: Disk, sects: seq<nat>, slots: seq<Slot>, more: seq<nat>)
    requires HoldsSlots(d, sects, slots) && |e| == |d| && forall q :: 0 <= q < |sects| ==> e[sects[q]] == d[sects[q]]
    requires forall q :: 0 <= q < |more| ==> more[q] < |e| && IsZero(e[more[q]])
    ensures HoldsSlots(e, sects + more, slots + ZeroSlots(SLOTS * |more|))
  {
    var slots' := slots + ZeroSlots(SLOTS * |more|);
    forall q, r | AtSlot(q, r) && 0 <= q < |sects + more| && 0 <= r < SLOTS
      ensures slots'[SLOTS * q + r] == SlotIn(e[(sects + more)[q]], r)
    {
      assert AtSlot(q, r);
      if q >= |sects| {
        ZeroSlotIn(e[more[q - |sects|]], r);
      }
    }
  }

  lemma ZeroSlotIn(sector: Sector, r: nat)
    requires IsZero(sector) && r < SLOTS
    ensures SlotIn(sector, r) == ZeroSlot()
  {
    forall j | 0 <= j < 32 ensures SlotIn(sector, r)[j] == 0 {
      assert SlotIn(sector, r)[j] == sector[32 * r + j];
    }
  }

  // The sectors of a chain, as a table wants them.
  lemma ChainTable(g: Geometry, d: Disk, fat: seq<nat>, chain: seq<nat>)
    requires g.Valid(|d|) && |fat| == g.maxClust && IsChain(fat, chain) && |ChainSects(g, chain)| <= 4096
    ensures TableSects(g, |d|, ChainSects(g, chain))
  {
    var sects := ChainSects(g, chain);
    ChainSectsGood(g, d, fat, chain);
    forall q | 0 <= q < |sects| ensures g.Addressable(sects[q], |d|) && sects[q] < |d| {
      ChainSectInData(g, |d|, fat, chain, q);
    }
    TimesOrdered(0, |chain|, g.csize);
  }

  // A power of two that is a number of sectors per cluster divides the largest table.
  predicate PowerOfTwo(n: nat) {
    n in {1, 2, 4, 8, 16, 32, 64, 128}
  }

  lemma WholeClusters(csize: nat, n: nat)
    requires PowerOfTwo(csize) && Times(n, csize) < 4096
    ensures Times(n + 1, csize) <= 4096
  {
    TimesIsProduct(n, csize);
  }

  // The disk with n sectors from sect on replaced by z.
  ghost function Filled(d: Disk, sect: nat, n: nat, z: Sector): (r: Disk)
    ensures |r| == |d|
  {
    seq(|d|, s requires 0 <= s < |d| => if sect <= s < sect + n then z else d[s])
  }
}
