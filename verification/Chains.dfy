/** Cluster chains: the FAT as a set of disjoint linked lists, independent of how entries are packed.
    A table is a sequence of links, the two reserved entries reading as 1; a link of |fat| or more ends a chain. */
module Chains {

  // The i-th cluster of s is one of the table's and links to the next; the last one ends the chain.
  ghost predicate LinkAt(fat: seq<nat>, s: seq<nat>, i: nat)
    requires i < |s|
  {
    && 2 <= s[i] < |fat|
    && if i + 1 < |s| then fat[s[i]] == s[i + 1] else |fat| <= fat[s[i]]
  }

  ghost predicate IsChain(fat: seq<nat>, s: seq<nat>) {
    0 < |s| && forall i :: 0 <= i < |s| ==> LinkAt(fat, s, i)
  }

  ghost predicate NoShared(s: seq<nat>, t: seq<nat>) {
    forall c :: c in s ==> c !in t
  }

  ghost predicate Disjoint(chains: set<seq<nat>>) {
    forall s, t :: s in chains && t in chains && s != t ==> NoShared(s, t)
  }

  ghost predicate InSome(chains: set<seq<nat>>, c: nat) {
    exists s :: s in chains && c in s
  }

  // The table holds exactly these chains, and no two of them share a cluster.
  ghost predicate Represents(fat: seq<nat>, chains: set<seq<nat>>) {
    && (forall s :: s in chains ==> IsChain(fat, s))
    && Disjoint(chains)
    && (forall c :: 2 <= c < |fat| && fat[c] != 0 ==> InSome(chains, c))
  }

  // A chain visits no cluster twice.
  lemma {:induction false} ChainAcyclic(fat: seq<nat>, s: seq<nat>, i: nat, j: nat)
    requires IsChain(fat, s) && i < j < |s|
    ensures s[i] != s[j]
    decreases |s| - j
  {
    assert LinkAt(fat, s, i) && LinkAt(fat, s, j);
    if j + 1 < |s| {
      ChainAcyclic(fat, s, i + 1, j + 1);
    } else {
      assert LinkAt(fat, s, i + 1);
    }
  }

  lemma ChainMember(fat: seq<nat>, s: seq<nat>, c: nat)
    requires IsChain(fat, s) && c in s
    ensures 2 <= c < |fat| && fat[c] != 0
  {
    var i :| 0 <= i < |s| && s[i] == c;
    assert LinkAt(fat, s, i);
    if i + 1 < |s| {
      assert LinkAt(fat, s, i + 1);
    }
  }

  // A chain does not notice changes to clusters that are not its own.
  lemma ChainFrame(fat: seq<nat>, fat': seq<nat>, s: seq<nat>)
    requires IsChain(fat, s) && |fat'| == |fat| && forall c :: 0 <= c < |fat| && c in s ==> fat'[c] == fat[c]
    ensures IsChain(fat', s)
  {
    forall i | 0 <= i < |s| ensures LinkAt(fat', s, i) {
      assert LinkAt(fat, s, i) && s[i] in s;
    }
  }

  // Free entries.
  function Zeros(s: seq<nat>): (n: nat)
    ensures n <= |s|
  {
    if s == [] then 0 else Zeros(s[..|s| - 1]) + if s[|s| - 1] == 0 then 1 else 0
  }

  lemma {:induction false} ZerosUpdate(s: seq<nat>, i: nat, v: nat)
    requires i < |s|
    ensures Zeros(s[i := v]) == Zeros(s) - (if s[i] == 0 then 1 else 0) + if v == 0 then 1 else 0
  {
    var n := |s| - 1;
    if i == n {
      assert s[i := v][..n] == s[..n];
    } else {
      assert s[i := v][..n] == s[..n][i := v];
      ZerosUpdate(s[..n], i, v);
    }
  }

  // What the allocator stores: the new cluster ends its chain, and the cluster to be stretched is linked to it.
  function Linked(fat: seq<nat>, clst: nat, ncl: nat, end: nat): (r: seq<nat>)
    requires ncl < |fat| && clst < |fat|
    ensures |r| == |fat|
  {
    if clst == 0 then fat[ncl := end] else fat[ncl := end][clst := ncl]
  }

  lemma FreeIsInNoChain(fat: seq<nat>, chains: set<seq<nat>>, c: nat)
    requires Represents(fat, chains) && c < |fat| && fat[c] == 0
    ensures !InSome(chains, c)
  {
    forall s | s in chains && c in s ensures false {
      ChainMember(fat, s, c);
    }
  }

  lemma NewChain(fat: seq<nat>, chains: set<seq<nat>>, ncl: nat, end: nat)
    requires Represents(fat, chains) && 2 <= ncl < |fat| <= end && fat[ncl] == 0
    ensures Represents(fat[ncl := end], chains + {[ncl]})
  {
    var fat', chains' := fat[ncl := end], chains + {[ncl]};
    FreeIsInNoChain(fat, chains, ncl);
    forall s | s in chains' ensures IsChain(fat', s) {
      if s in chains {
        ChainFrame(fat, fat', s);
      } else {
        assert LinkAt(fat', s, 0);
      }
    }
    DisjointWith(chains, [ncl]);
    forall c | 2 <= c < |fat'| && fat'[c] != 0 ensures InSome(chains', c) {
      if c == ncl {
        assert [ncl] in chains' && c in [ncl];
      } else {
        InSomeMore(chains, chains', c);
      }
    }
  }

  lemma DisjointWith(chains: set<seq<nat>>, s: seq<nat>)
    requires Disjoint(chains) && forall c :: c in s ==> !InSome(chains, c)
    ensures Disjoint(chains + {s})
  {
    forall t, u | t in chains + {s} && u in chains + {s} && t != u ensures NoShared(t, u) {
      if t !in chains {
        assert forall c :: c in u && u in chains ==> InSome(chains, c);
      } else if u !in chains {
        assert forall c :: c in t && t in chains ==> InSome(chains, c);
      }
    }
  }

  lemma InSomeMore(chains: set<seq<nat>>, more: set<seq<nat>>, c: nat)
    requires chains <= more && InSome(chains, c)
    ensures InSome(more, c)
  {
    var s :| s in chains && c in s;
    assert s in more;
  }

  // Stretching chain s, at its last cluster, by a free cluster.
  lemma StretchChain(fat: seq<nat>, chains: set<seq<nat>>, s: seq<nat>, ncl: nat, end: nat)
    requires Represents(fat, chains) && s in chains && 2 <= ncl < |fat| <= end && fat[ncl] == 0
    ensures |s| > 0 && s[|s| - 1] < |fat|
    ensures Represents(fat[ncl := end][s[|s| - 1] := ncl], chains - {s} + {s + [ncl]})
  {
    assert IsChain(fat, s) && LinkAt(fat, s, |s| - 1);
    var last, t, rest := s[|s| - 1], s + [ncl], chains - {s};
    var fat' := fat[ncl := end][last := ncl];
    FreeIsInNoChain(fat, chains, ncl);
    StretchedLinks(fat, s, ncl, end);
    forall u | u in rest ensures IsChain(fat', u) {
      assert NoShared(s, u) && last in s;
      ChainFrame(fat, fat', u);
    }
    forall c | c in t ensures !InSome(rest, c) {
      forall u | u in rest ensures c !in u {
        assert NoShared(s, u);
      }
    }
    DisjointWith(rest, t);
    forall c | 2 <= c < |fat'| && fat'[c] != 0 ensures InSome(rest + {t}, c) {
      StretchedCovers(chains, s, ncl, c);
    }
  }

  lemma StretchedCovers(chains: set<seq<nat>>, s: seq<nat>, ncl: nat, c: nat)
    requires s in chains && (c == ncl || InSome(chains, c))
    ensures InSome(chains - {s} + {s + [ncl]}, c)
  {
    var t, more := s + [ncl], chains - {s} + {s + [ncl]};
    if c == ncl {
      assert t[|s|] == c;
      assert t in more && c in t;
    } else {
      var u :| u in chains && c in u;
      assert c in t || u in more;
      assert t in more;
    }
  }

  lemma StretchedLinks(fat: seq<nat>, s: seq<nat>, ncl: nat, end: nat)
    requires IsChain(fat, s) && 2 <= ncl < |fat| <= end && fat[ncl] == 0
    ensures s[|s| - 1] < |fat| && IsChain(fat[ncl := end][s[|s| - 1] := ncl], s + [ncl])
  {
    var n := |s|;
    assert LinkAt(fat, s, n - 1);
    var fat', t := fat[ncl := end][s[n - 1] := ncl], s + [ncl];
    forall i | 0 <= i < |t| ensures LinkAt(fat', t, i) {
      if i < n {
        assert LinkAt(fat, s, i) && s[i] in s;
        ChainMember(fat, s, s[i]);
        if i < n - 1 {
          ChainAcyclic(fat, s, i, n - 1);
        }
      } else {
        ChainMember(fat, s, s[n - 1]);
      }
    }
  }

  // The table with the clusters of s free.
  function Cleared(fat: seq<nat>, s: seq<nat>): (r: seq<nat>)
    ensures |r| == |fat|
  {
    seq(|fat|, c requires 0 <= c < |fat| => if c in s then 0 else fat[c])
  }

  lemma DropChain(fat: seq<nat>, chains: set<seq<nat>>, s: seq<nat>)
    requires Represents(fat, chains) && s in chains
    ensures Represents(Cleared(fat, s), chains - {s})
  {
    var fat', rest := Cleared(fat, s), chains - {s};
    forall u | u in rest ensures IsChain(fat', u) {
      assert NoShared(s, u);
      ChainFrame(fat, fat', u);
    }
    forall c | 2 <= c < |fat'| && fat'[c] != 0 ensures InSome(rest, c) {
      var u :| u in chains && c in u;
      assert u in rest;
    }
  }

  /** What remove_chain leaves of any table, cyclic or cross-linked ones included: every step zeroes one
      nonzero entry, so following the links terminates. */
  function FreeFrom(fat: seq<nat>, c: nat): (r: seq<nat>)
    ensures |r| == |fat|
    decreases |fat| - Zeros(fat)
  {
    if c >= |fat| || fat[c] <= 1 then fat
    else
      ZerosUpdate(fat, c, 0);
      FreeFrom(fat[c := 0], fat[c])
  }

  // Does following the links from c run into the reserved value 1?
  predicate FreeFails(fat: seq<nat>, c: nat)
    decreases |fat| - Zeros(fat)
  {
    if c >= |fat| || fat[c] == 0 then false
    else if fat[c] == 1 then true
    else
      ZerosUpdate(fat, c, 0);
      FreeFails(fat[c := 0], fat[c])
  }

  // p follows links of the table, cluster by cluster.
  ghost predicate IsPath(fat: seq<nat>, p: seq<nat>) {
    && 0 < |p|
    && (forall i :: 0 <= i < |p| ==> p[i] < |fat|)
    && (forall i :: 0 <= i < |p| - 1 ==> 1 < fat[p[i]] == p[i + 1])
  }

  // From the head of a chain, exactly that chain is freed.
  lemma {:induction false} FreeFromHead(fat: seq<nat>, s: seq<nat>)
    requires IsChain(fat, s)
    ensures FreeFrom(fat, s[0]) == Cleared(fat, s)
    ensures !FreeFails(fat, s[0])
    decreases |s|
  {
    assert LinkAt(fat, s, 0);
    ZerosUpdate(fat, s[0], 0);
    var fat' := fat[s[0] := 0];
    if |s| == 1 {
      assert fat' == Cleared(fat, s);
    } else {
      ChainTail(fat, s);
      assert LinkAt(fat, s, 1);
      FreeFromHead(fat', s[1..]);
      assert Cleared(fat', s[1..]) == Cleared(fat, s) by {
        assert s == [s[0]] + s[1..];
      }
    }
  }

  lemma ChainTail(fat: seq<nat>, s: seq<nat>)
    requires IsChain(fat, s) && 1 < |s|
    ensures s[0] < |fat| && IsChain(fat[s[0] := 0], s[1..])
  {
    assert LinkAt(fat, s, 0);
    var fat', t := fat[s[0] := 0], s[1..];
    forall i | 0 <= i < |t| ensures LinkAt(fat', t, i) {
      ChainAcyclic(fat, s, 0, i + 1);
      assert LinkAt(fat, s, i + 1);
    }
  }

  // Entries are only ever zeroed, and only those the links lead to from c.
  lemma {:induction false} FreeFromReachesOnly(fat: seq<nat>, c: nat, x: nat) returns (p: seq<nat>)
    requires x < |fat| && FreeFrom(fat, c)[x] != fat[x]
    ensures FreeFrom(fat, c)[x] == 0
    ensures IsPath(fat, p) && p[0] == c && p[|p| - 1] == x
    decreases |fat| - Zeros(fat)
  {
    ZerosUpdate(fat, c, 0);
    if x == c {
      p := [c];
      FreeFromKeepsZero(fat[c := 0], fat[c], c);
    } else {
      var q := FreeFromReachesOnly(fat[c := 0], fat[c], x);
      p := [c] + q;
    }
  }

  lemma {:induction false} FreeFromKeepsZero(fat: seq<nat>, c: nat, x: nat)
    requires x < |fat| && fat[x] == 0
    ensures FreeFrom(fat, c)[x] == 0
    decreases |fat| - Zeros(fat)
  {
    if c < |fat| && fat[c] > 1 {
      ZerosUpdate(fat, c, 0);
      FreeFromKeepsZero(fat[c := 0], fat[c], x);
    }
  }

  // A table made of chains holds no link 1.
  lemma NoReservedLink(fat: seq<nat>, chains: set<seq<nat>>)
    requires Represents(fat, chains) && 2 <= |fat|
    ensures forall c :: 2 <= c < |fat| ==> fat[c] != 1
  {
    forall c | 2 <= c < |fat| ensures fat[c] != 1 {
      if fat[c] != 0 {
        assert InSome(chains, c);
        var s :| s in chains && c in s;
        var i :| 0 <= i < |s| && s[i] == c;
        assert LinkAt(fat, s, i);
        if i + 1 < |s| {
          assert LinkAt(fat, s, i + 1);
        }
      }
    }
  }

  /** The allocator seen as an operation on chains: free cluster ncl becomes a chain of its own, or the new
      last cluster of chain s; all other chains are kept. */
  lemma GrowChain(fat: seq<nat>, chains: set<seq<nat>>, s: seq<nat>, ncl: nat, end: nat)
    returns (chains': set<seq<nat>>)
    requires Represents(fat, chains) && 2 <= ncl < |fat| <= end && fat[ncl] == 0
    requires s == [] || s in chains
    ensures s != [] ==> 2 <= s[|s| - 1] < |fat|
    ensures Represents(Linked(fat, if s == [] then 0 else s[|s| - 1], ncl, end), chains')
    ensures s + [ncl] in chains' && chains' - {s + [ncl]} == chains - {s}
  {
    FreeIsInNoChain(fat, chains, ncl);
    var t := s + [ncl];
    assert t[|s|] == ncl;
    assert t !in chains by {
      if t in chains {
        assert InSome(chains, ncl);
      }
    }
    if s == [] {
      NewChain(fat, chains, ncl, end);
      assert t == [ncl];
      chains' := chains + {t};
    } else {
      assert IsChain(fat, s) && LinkAt(fat, s, |s| - 1);
      StretchChain(fat, chains, s, ncl, end);
      chains' := chains - {s} + {t};
    }
  }
}
