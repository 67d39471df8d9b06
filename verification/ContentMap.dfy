/** The map of shared contents, /shared1/content.map, as bytes: entries of a name and a hash, one behind the other. */
module ContentMap {
  import opened Bytes

  const ENTRY: nat := 0x1C
  const ES_SUCCESS: int := 0
  const ES_FATAL: int := -1017
  const FS_FATAL: int := -101
  const FS_NO_ENTRY: int := -106
  // f_write does not let a file get this long, and IOS_Seek answers in 31 bits and a sign.
  const LIMIT: nat := 0x1_0000_0000
  const HALF: nat := 0x8000_0000

  type Hash = h: seq<byte> | |h| == 0x14 witness seq(0x14, _ => 0)

  // One hexadecimal digit, as sprintf writes it.
  function Digit(n: nat): byte
    requires n < 16
  {
    if n < 10 then 0x30 + n else 0x61 + (n - 10)
  }

  // The last n digits of k: "%08x" for n = 8.
  function Hex(k: nat, n: nat): (r: seq<byte>)
    ensures |r| == n
  {
    if n == 0 then [] else Hex(k / 16, n - 1) + [Digit(k % 16)]
  }

  // Different numbers have different names.
  lemma {:induction false} HexInjective(j: nat, k: nat, n: nat)
    requires Hex(j, n) == Hex(k, n) && j < Power16(n) && k < Power16(n)
    ensures j == k
  {
    if n == 0 {
    } else {
      assert Hex(j, n)[..n - 1] == Hex(j / 16, n - 1) && Hex(k, n)[..n - 1] == Hex(k / 16, n - 1);
      assert Hex(j, n)[n - 1] == Digit(j % 16) && Hex(k, n)[n - 1] == Digit(k % 16);
      HexInjective(j / 16, k / 16, n - 1);
    }
  }

  function Power16(n: nat): nat {
    if n == 0 then 1 else 16 * Power16(n - 1)
  }

  // Entry k of a map: its name and its hash.
  function NameAt(m: seq<byte>, k: nat): seq<byte>
    requires (k + 1) * ENTRY <= |m|
  {
    m[k * ENTRY..k * ENTRY + 8]
  }

  function HashAt(m: seq<byte>, k: nat): Hash
    requires (k + 1) * ENTRY <= |m|
  {
    m[k * ENTRY + 8..(k + 1) * ENTRY]
  }

  // Number of entries.
  function Count(m: seq<byte>): (n: nat)
    ensures n * ENTRY <= |m| < (n + 1) * ENTRY
  {
    |m| / ENTRY
  }

  /** The invariant of the map: entry k has name k, and no hash occurs twice. */
  ghost predicate IsMap(m: seq<byte>) {
    && |m| == Count(m) * ENTRY
    && (forall k :: 0 <= k < Count(m) ==> NameAt(m, k) == Hex(k, 8))
    && forall j, k :: 0 <= j < k < Count(m) ==> HashAt(m, j) != HashAt(m, k)
  }

  ghost predicate HasHash(m: seq<byte>, hash: Hash) {
    exists k :: 0 <= k < Count(m) && HashAt(m, k) == hash
  }

  // The number in the name of the next file: size / 0x1C, with size signed, as "%08x" writes it.
  function NextNumber(len: nat): (n: nat)
    requires len < LIMIT
    ensures n < LIMIT
  {
    if len < HALF then len / ENTRY else (LIMIT - (LIMIT - len) / ENTRY) % LIMIT
  }

  function NextName(len: nat): (r: seq<byte>)
    requires len < LIMIT
    ensures |r| == 8
  {
    Hex(NextNumber(len), 8)
  }

  // The entry AddTitleFinish appends to a map of len bytes.
  function NewEntry(len: nat, hash: Hash): (r: seq<byte>)
    requires len < LIMIT
    ensures |r| == ENTRY
  {
    NextName(len) + hash
  }

  // What is left of the last cluster of a file.
  function Slack(len: nat, cluster: nat): (r: nat)
    requires 0 < cluster
  {
    (cluster - len % cluster) % cluster
  }

  // How many bytes of the entry f_write takes.
  function Takes(len: nat, free: nat, cluster: nat): (n: nat)
    requires 512 <= cluster
    ensures n <= ENTRY
  {
    if len + ENTRY >= LIMIT then 0
    else if 0 < free || ENTRY <= Slack(len, cluster) then ENTRY
    else Slack(len, cluster)
  }

  // What ISFS_Rename returns.
  function Renamed(there: bool, slot: bool): int {
    if !there then FS_NO_ENTRY else if !slot then FS_FATAL else ES_SUCCESS
  }

  lemma Power8()
    ensures Power16(8) == LIMIT
  {
    assert Power16(4) == 0x1_0000;
  }

  // Names of different numbers below 2^32 differ.
  lemma NamesDiffer(j: nat, k: nat)
    requires j < LIMIT && k < LIMIT && j != k
    ensures Hex(j, 8) != Hex(k, 8)
  {
    Power8();
    if Hex(j, 8) == Hex(k, 8) {
      HexInjective(j, k, 8);
    }
  }

  // Below 2 GB the next number is the number of entries; from there on it is not.
  lemma NumberRight(m: seq<byte>)
    requires |m| < LIMIT
    ensures NextNumber(|m|) == Count(m) <==> |m| < HALF
  {
    if |m| >= HALF {
      var q := (LIMIT - |m|) / ENTRY;
      assert q <= HALF / ENTRY;
    }
  }

  // The entries of a map that has got longer.
  lemma Longer(m: seq<byte>, t: seq<byte>)
    ensures Count(m) <= Count(m + t)
    ensures forall k :: 0 <= k < Count(m) ==> NameAt(m + t, k) == NameAt(m, k) && HashAt(m + t, k) == HashAt(m, k)
  {
  }

  // A map with one entry more.
  lemma Appended(m: seq<byte>, entry: seq<byte>)
    requires |m| == Count(m) * ENTRY && |entry| == ENTRY
    ensures Count(m + entry) == Count(m) + 1 && |m + entry| == (Count(m) + 1) * ENTRY
    ensures NameAt(m + entry, Count(m)) == entry[..8] && HashAt(m + entry, Count(m)) == entry[8..]
  {
    var n, m' := Count(m), m + entry;
    assert m'[n * ENTRY..n * ENTRY + 8] == entry[..8] && m'[n * ENTRY + 8..(n + 1) * ENTRY] == entry[8..];
  }

  // What a whole entry, or less of it, does to the hashes of a map.
  lemma HashesOf(m: seq<byte>, t: seq<byte>, hash: Hash)
    requires |m| == Count(m) * ENTRY && |t| <= ENTRY
    ensures HasHash(m + t, hash) <==> HasHash(m, hash) || (|t| == ENTRY && t[8..] == hash)
  {
    Longer(m, t);
    var n := Count(m);
    if |t| == ENTRY {
      Appended(m, t);
      if t[8..] == hash {
        assert HashAt(m + t, n) == hash;
      }
    } else {
      assert Count(m + t) == n;
    }
    if HasHash(m, hash) {
      var k :| 0 <= k < n && HashAt(m, k) == hash;
      assert HashAt(m + t, k) == hash;
    }
    if HasHash(m + t, hash) {
      var k :| 0 <= k < Count(m + t) && HashAt(m + t, k) == hash;
      if k < n {
        assert HashAt(m, k) == hash;
      }
    }
  }

  /** A hash is registered exactly if its whole entry was written. */
  lemma EntryTaken(m: seq<byte>, hash: Hash, n: nat)
    requires IsMap(m) && |m| < LIMIT && !HasHash(m, hash) && n <= ENTRY
    ensures HasHash(m + NewEntry(|m|, hash)[..n], hash) <==> n == ENTRY
  {
    HashesOf(m, NewEntry(|m|, hash)[..n], hash);
  }

  /** A whole entry for a new hash keeps the invariant below 2 GB. */
  lemma AppendKeeps(m: seq<byte>, hash: Hash)
    requires IsMap(m) && |m| < HALF && !HasHash(m, hash)
    ensures IsMap(m + NewEntry(|m|, hash))
  {
    var t := NewEntry(|m|, hash);
    NumberRight(m);
    Longer(m, t);
    Appended(m, t);
    assert t[8..] == hash && t[..8] == Hex(Count(m), 8);
    forall j, k | 0 <= j < k < Count(m) + 1 ensures HashAt(m + t, j) != HashAt(m + t, k) {
      assert HashAt(m + t, j) == HashAt(m, j);
      if k < Count(m) {
        assert HashAt(m + t, k) == HashAt(m, k);
      }
    }
  }

  // From 2 GB on the entry's name is not its number.
  lemma AppendBreaks(m: seq<byte>, hash: Hash)
    requires IsMap(m) && HALF <= |m| < LIMIT
    ensures !IsMap(m + NewEntry(|m|, hash))
  {
    var t := NewEntry(|m|, hash);
    NumberRight(m);
    NamesDiffer(NextNumber(|m|), Count(m));
    Appended(m, t);
    assert t[..8] == NextName(|m|);
    assert NameAt(m + t, Count(m)) != Hex(Count(m), 8);
  }

  /** And the map is a map afterwards exactly if nothing was written, or all of an entry below 2 GB. */
  lemma OrderKept(m: seq<byte>, hash: Hash, n: nat)
    requires IsMap(m) && |m| < LIMIT && !HasHash(m, hash) && n <= ENTRY
    ensures IsMap(m + NewEntry(|m|, hash)[..n]) <==> n == 0 || (n == ENTRY && |m| < HALF)
  {
    if n == 0 {
      assert m + NewEntry(|m|, hash)[..n] == m;
    } else if n == ENTRY {
      assert NewEntry(|m|, hash)[..n] == NewEntry(|m|, hash);
      if |m| < HALF {
        AppendKeeps(m, hash);
      } else {
        AppendBreaks(m, hash);
      }
    }
  }

  /** When the whole entry is written: below the limit, with a free cluster or room enough in the last one. */
  lemma TakesAll(len: nat, free: nat, cluster: nat)
    requires 512 <= cluster
    ensures Takes(len, free, cluster) == ENTRY <==> len + ENTRY < LIMIT && (0 < free || ENTRY <= Slack(len, cluster))
    ensures 0 < Takes(len, free, cluster) < ENTRY
            <==> len + ENTRY < LIMIT && free == 0 && 0 < Slack(len, cluster) < ENTRY
  {
  }

  /** A full disk with 512-byte clusters and a map of eighteen entries: eight bytes of the nineteenth are written. The
      hash is not registered, and the map is out of order from then on. */
  lemma PartOfEntry(m: seq<byte>, hash: Hash)
    requires IsMap(m) && |m| == 18 * ENTRY && !HasHash(m, hash)
    ensures var n := Takes(|m|, 0, 512);
            n == 8 && !HasHash(m + NewEntry(|m|, hash)[..n], hash) && !IsMap(m + NewEntry(|m|, hash)[..n])
  {
    EntryTaken(m, hash, 8);
    OrderKept(m, hash, 8);
  }
}
