/** Long file names: thirteen characters to a directory entry, stored last segment first. */
module LongNames {
  import opened Bytes

  type Wchar = w: nat | w < 0x1_0000

  type Slot = s: seq<byte> | |s| == 32 witness seq(32, _ => 0)

  const MAX_LFN := 255
  const AM_LFN: byte := 0x0F

  // LfnOfs: where the entry keeps its thirteen characters.
  function LfnOfs(k: nat): nat {
    if k < 5 then 1 + 2 * k else if k < 11 then 14 + 2 * (k - 5) else 28 + 2 * (k - 11)
  }

  function CharAt(dir: Slot, k: nat): Wchar
    requires k < 13
  {
    LdWord(dir, LfnOfs(k))
  }

  // Bit 6 of the order byte marks the last segment of a name; dir[LDIR_Ord] & 0xBF is the rest.
  function OrderOf(b: byte): (r: byte)
    ensures r < 0xC0
  {
    if b / 0x40 % 2 == 1 then b - 0x40 else b
  }

  predicate IsLast(b: byte) {
    b / 0x40 % 2 == 1
  }

  // ff_wtoupper, with char unsigned as on the ARM core this runs on.
  function Upper(w: Wchar): Wchar {
    if 'a' as int <= w <= 'z' as int then w - 0x20 else w
  }

  // A name as a volume can hold it: no terminator and no filler among its characters.
  ghost predicate IsName(name: seq<Wchar>) {
    0 < |name| <= MAX_LFN && forall i :: 0 <= i < |name| ==> name[i] != 0 && name[i] != 0xFFFF
  }

  ghost predicate SameName(a: seq<Wchar>, b: seq<Wchar>) {
    |a| == |b| && forall i :: 0 <= i < |a| ==> Upper(a[i]) == Upper(b[i])
  }

  // The working buffer after create_name: the name, a terminator, and whatever was there before.
  ghost predicate InBuffer(buf: seq<Wchar>, name: seq<Wchar>) {
    |buf| == MAX_LFN + 1 && |name| <= MAX_LFN && buf[..|name|] == name && buf[|name|] == 0
  }

  // Number of segments of a name.
  function Segments(name: seq<Wchar>): nat {
    (|name| + 12) / 13
  }

  // Character k of segment ord: the name, its terminator, then filler.
  function SegmentChar(name: seq<Wchar>, ord: nat, k: nat): Wchar
    requires 1 <= ord
  {
    var i := (ord - 1) * 13 + k;
    if i < |name| then name[i] else if i == |name| then 0 else 0xFFFF
  }

  /** dir is the entry for segment ord of the name, tied by sum to its short name. */
  ghost predicate IsSegment(dir: Slot, name: seq<Wchar>, ord: nat, sum: byte)
    requires 1 <= ord <= 20
  {
    && dir[0] == (if |name| <= 13 * ord then ord + 0x40 else ord)
    && dir[11] == AM_LFN && dir[12] == 0 && dir[13] == sum && dir[26] == 0 && dir[27] == 0
    && forall k {:trigger CharAt(dir, k)} :: 0 <= k < 13 ==> CharAt(dir, k) == SegmentChar(name, ord, k)
  }

  // The places of the characters are apart from each other and from the other fields.
  lemma OfsApart(k: nat, m: nat)
    requires k < 13 && m < 13
    ensures LfnOfs(k) + 2 <= 32
    ensures k < m ==> LfnOfs(k) + 2 <= LfnOfs(m)
    ensures forall o :: o in [0, 11, 12, 13, 26, 27] ==> o < LfnOfs(k) || LfnOfs(k) + 2 <= o
  {
  }

  // ST_WORD of a character leaves the other characters and the other fields alone.
  lemma StoreChar(dir: Slot, k: nat, w: Wchar)
    requires k < 13
    ensures LfnOfs(k) + 2 <= 32
    ensures var r := StWord(dir, LfnOfs(k), w);
            && CharAt(r, k) == w
            && (forall m {:trigger CharAt(r, m)} :: 0 <= m < 13 && m != k ==> CharAt(r, m) == CharAt(dir, m))
            && r[0] == dir[0] && r[11] == dir[11] && r[12] == dir[12] && r[13] == dir[13] && r[26] == dir[26]
            && r[27] == dir[27]
  {
    var r := StWord(dir, LfnOfs(k), w);
    WordAgain(w);
    CutNothing16(w);
    forall m | 0 <= m < 13 && m != k ensures CharAt(r, m) == CharAt(dir, m) {
      if m < k {
        OfsApart(m, k);
      } else {
        OfsApart(k, m);
      }
    }
  }

  /** fit_lfn: segment ord of the name in the buffer, into the entry. */
  method FitLfn(buf: seq<Wchar>, dir0: Slot, ord: nat, sum: byte, ghost name: seq<Wchar>) returns (dir: Slot)
    requires InBuffer(buf, name) && IsName(name) && 1 <= ord <= Segments(name)
    ensures ord <= 20 && IsSegment(dir, name, ord, sum)
  {
    dir := dir0[13 := sum][11 := AM_LFN][12 := 0][26 := 0][27 := 0];
    var i, s, wchr: Wchar := (ord - 1) * 13, 0, 0;
    while s < 13
      invariant 0 <= s <= 13
      invariant dir[11] == AM_LFN && dir[12] == 0 && dir[13] == sum && dir[26] == 0 && dir[27] == 0
      invariant if (ord - 1) * 13 + s <= |name| then i == (ord - 1) * 13 + s && wchr != 0xFFFF
                  else wchr == 0xFFFF && i <= |name| + 1
      invariant forall k {:trigger CharAt(dir, k)} :: 0 <= k < s ==> CharAt(dir, k) == SegmentChar(name, ord, k)
    {
      if wchr != 0xFFFF {
        wchr := buf[i];
        i := i + 1;
      }
      StoreChar(dir, s, wchr);
      dir := StWord(dir, LfnOfs(s), wchr);
      if wchr == 0 {
        wchr := 0xFFFF;
      }
      s := s + 1;
    }
    var o: byte := ord;
    if wchr == 0xFFFF || buf[i] == 0 {
      o := o + 0x40;
    }
    SetOrder(dir, o);
    dir := dir[0 := o];
  }

  lemma SetOrder(dir: Slot, o: byte)
    ensures forall k {:trigger CharAt(dir[0 := o], k)} :: 0 <= k < 13 ==> CharAt(dir[0 := o], k) == CharAt(dir, k)
  {
  }

  /** What test_lfn accepts: the entry's characters match the buffer up to and including the terminator, if the
      segment has one, and only filler follows; all within the first MAX_LFN places of the buffer. */
  ghost predicate Matches(buf: seq<Wchar>, dir: Slot)
    requires |buf| == MAX_LFN + 1 && 1 <= OrderOf(dir[0])
  {
    MatchesAt(buf, dir, (OrderOf(dir[0]) - 1) * 13, IsLast(dir[0]))
  }

  ghost predicate MatchesAt(buf: seq<Wchar>, dir: Slot, base: nat, last: bool)
    requires |buf| == MAX_LFN + 1
  {
    var e := EndOf(dir, 0);
    && (forall k {:trigger CharAt(dir, k)} :: 0 <= k < 13 && k <= e ==>
         base + k < MAX_LFN && Upper(CharAt(dir, k)) == Upper(buf[base + k]))
    && (forall k {:trigger CharAt(dir, k)} :: e < k < 13 ==> CharAt(dir, k) == 0xFFFF)
    && (e == 13 && last ==> buf[base + 13] == 0)
  }

  // The place of the terminator from s on, 13 if there is none.
  ghost function EndOf(dir: Slot, s: nat): (e: nat)
    requires s <= 13
    ensures s <= e <= 13 && (e < 13 ==> CharAt(dir, e) == 0)
    ensures forall k {:trigger CharAt(dir, k)} :: s <= k < e ==> CharAt(dir, k) != 0
    decreases 13 - s
  {
    if s == 13 || CharAt(dir, s) == 0 then s else EndOf(dir, s + 1)
  }

  lemma EndUnique(dir: Slot, e: nat)
    requires e <= 13 && (e < 13 ==> CharAt(dir, e) == 0)
    requires forall k {:trigger CharAt(dir, k)} :: 0 <= k < e ==> CharAt(dir, k) != 0
    ensures EndOf(dir, 0) == e
  {
  }

  method TestLfn(buf: seq<Wchar>, dir: Slot) returns (ok: bool)
    requires |buf| == MAX_LFN + 1 && 1 <= OrderOf(dir[0])
    ensures ok <==> Matches(buf, dir)
  {
    ok := TestAt(buf, dir, (OrderOf(dir[0]) - 1) * 13, IsLast(dir[0]));
  }

  // The loop of test_lfn, for the segment that starts at base.
  method TestAt(buf: seq<Wchar>, dir: Slot, base: nat, last: bool) returns (ok: bool)
    requires |buf| == MAX_LFN + 1
    ensures ok <==> MatchesAt(buf, dir, base, last)
  {
    hide CharAt;
    var i, s, wc: Wchar := base, 0, 1;
    ghost var e := EndOf(dir, 0);
    while s < 13
      invariant 0 <= s <= 13
      invariant wc != 0 <==> s <= e
      invariant i == base + if s <= e then s else e + 1
      invariant forall k {:trigger CharAt(dir, k)} :: 0 <= k < s && k <= e ==>
                  base + k < MAX_LFN && Upper(CharAt(dir, k)) == Upper(buf[base + k])
      invariant forall k {:trigger CharAt(dir, k)} :: e < k < s ==> CharAt(dir, k) == 0xFFFF
    {
      var uc := CharAt(dir, s);
      if wc != 0 {
        wc := Upper(uc);
        if i >= MAX_LFN || wc != Upper(buf[i]) {
          return false;
        }
        i := i + 1;
      } else if uc != 0xFFFF {
        return false;
      }
      s := s + 1;
    }
    if last && wc != 0 && buf[i] != 0 {
      return false;
    }
    ok := true;
  }

  // The buffer after the characters of one segment have been picked up.
  ghost function Picked(buf: seq<Wchar>, dir: Slot, base: nat, last: bool): (r: seq<Wchar>)
    requires |buf| == MAX_LFN + 1
    ensures |r| == |buf|
  {
    var e := EndOf(dir, 0);
    seq(|buf|, i requires 0 <= i < |buf| =>
      if base <= i < base + e then CharAt(dir, i - base) else if last && i == base + e then 0 else buf[i])
  }

  method PickLfn(buf: array<Wchar>, dir: Slot) returns (ok: bool)
    requires buf.Length == MAX_LFN + 1 && 1 <= OrderOf(dir[0]) <= 20
    modifies buf
    ensures var base := (OrderOf(dir[0]) - 1) * 13;
            && (ok <==> base + EndOf(dir, 0) <= MAX_LFN)
            && (ok ==> buf[..] == Picked(old(buf[..]), dir, base, IsLast(dir[0])))
  {
    ok := PickAt(buf, dir, (OrderOf(dir[0]) - 1) * 13, IsLast(dir[0]));
  }

  // The loop of pick_lfn, for the segment that starts at base.
  method PickAt(buf: array<Wchar>, dir: Slot, base: nat, last: bool) returns (ok: bool)
    requires buf.Length == MAX_LFN + 1 && base <= MAX_LFN
    modifies buf
    ensures ok <==> base + EndOf(dir, 0) <= MAX_LFN
    ensures ok ==> buf[..] == Picked(old(buf[..]), dir, base, last)
  {
    hide CharAt, EndOf;
    var i, s := base, 0;
    ghost var e := EndOf(dir, 0);
    while s < 13
      invariant 0 <= s <= e && i == base + s <= MAX_LFN
      invariant forall k :: 0 <= k < buf.Length ==>
                  buf[k] == if base <= k < i then CharAt(dir, k - base) else old(buf[k])
    {
      var wchr := CharAt(dir, s);
      if wchr == 0 {
        break;
      }
      if i >= MAX_LFN {
        return false;
      }
      buf[i] := wchr;
      i := i + 1;
      s := s + 1;
    }
    if last {
      buf[i] := 0;
    }
    ok := true;
  }

  // dirs are the entries of a name, dirs[k] the one of segment k + 1.
  ghost predicate AreSegments(dirs: seq<Slot>, name: seq<Wchar>, sum: byte) {
    && IsName(name) && |dirs| == Segments(name)
    && forall k :: 0 <= k < |dirs| ==> IsSegment(dirs[k], name, k + 1, sum)
  }

  lemma OrderByte(dir: Slot, name: seq<Wchar>, ord: nat, sum: byte)
    requires 1 <= ord <= 20 && IsSegment(dir, name, ord, sum)
    ensures OrderOf(dir[0]) == ord && (IsLast(dir[0]) <==> |name| <= 13 * ord)
  {
  }

  lemma SegmentEnd(dir: Slot, name: seq<Wchar>, ord: nat, sum: byte)
    requires IsName(name) && 1 <= ord <= 20 && 13 * (ord - 1) < |name| && IsSegment(dir, name, ord, sum)
    ensures EndOf(dir, 0) == if |name| < 13 * ord then |name| - 13 * (ord - 1) else 13
  {
    var e := if |name| < 13 * ord then |name| - 13 * (ord - 1) else 13;
    forall k | 0 <= k < e ensures CharAt(dir, k) != 0 {
      assert CharAt(dir, k) == SegmentChar(name, ord, k);
    }
    if e < 13 {
      assert CharAt(dir, e) == SegmentChar(name, ord, e);
    }
    EndUnique(dir, e);
  }

  // A segment matches if the searched name agrees with it, terminator included.
  ghost predicate Agrees(buf: seq<Wchar>, name: seq<Wchar>, i: nat) {
    i < MAX_LFN && i < |buf| && i <= |name| && Upper(if i < |name| then name[i] else 0) == Upper(buf[i])
  }

  ghost predicate SegmentAgrees(buf: seq<Wchar>, name: seq<Wchar>, ord: nat)
    requires |buf| == MAX_LFN + 1 && |name| <= MAX_LFN && 1 <= ord
  {
    && (forall i :: 13 * (ord - 1) <= i < 13 * ord && i <= |name| ==> Agrees(buf, name, i))
    && (|name| == 13 * ord ==> buf[|name|] == 0)
  }

  lemma SegmentMatches(buf: seq<Wchar>, dir: Slot, name: seq<Wchar>, ord: nat, sum: byte)
    requires |buf| == MAX_LFN + 1 && IsName(name) && 1 <= ord <= 20 && 13 * (ord - 1) < |name|
             && IsSegment(dir, name, ord, sum)
    ensures OrderOf(dir[0]) == ord
    ensures Matches(buf, dir) <==> SegmentAgrees(buf, name, ord)
  {
    OrderByte(dir, name, ord, sum);
    SegmentEnd(dir, name, ord, sum);
    hide Upper, CharAt, IsSegment;
    var base, last := 13 * (ord - 1), |name| <= 13 * ord;
    if MatchesAt(buf, dir, base, last) {
      forall i | base <= i < 13 * ord && i <= |name| ensures Agrees(buf, name, i) {
        SegmentCharAt(dir, name, ord, sum, i - base);
      }
    }
    if SegmentAgrees(buf, name, ord) {
      AgreeingMatches(buf, dir, name, ord, sum);
    }
  }

  lemma AgreeingMatches(buf: seq<Wchar>, dir: Slot, name: seq<Wchar>, ord: nat, sum: byte)
    requires |buf| == MAX_LFN + 1 && IsName(name) && 1 <= ord <= 20 && 13 * (ord - 1) < |name|
             && IsSegment(dir, name, ord, sum)
    requires SegmentAgrees(buf, name, ord)
    ensures MatchesAt(buf, dir, 13 * (ord - 1), |name| <= 13 * ord)
  {
    hide Upper, CharAt;
    SegmentEnd(dir, name, ord, sum);
    var base, e := 13 * (ord - 1), EndOf(dir, 0);
    forall k | 0 <= k < 13 && k <= e
      ensures base + k < MAX_LFN && Upper(CharAt(dir, k)) == Upper(buf[base + k])
    {
      assert Agrees(buf, name, base + k);
      SegmentCharAt(dir, name, ord, sum, k);
    }
    forall k | e < k < 13 ensures CharAt(dir, k) == 0xFFFF {
      SegmentCharAt(dir, name, ord, sum, k);
    }
  }

  ghost predicate AllAgree(buf: seq<Wchar>, name: seq<Wchar>)
    requires |buf| == MAX_LFN + 1 && |name| <= MAX_LFN
  {
    forall ord :: 1 <= ord <= Segments(name) ==> SegmentAgrees(buf, name, ord)
  }

  // All segments of the name agree with what is searched exactly when the names are the same up to case, and the
  // stored one is not too long.
  lemma AgreeIsSame(buf: seq<Wchar>, search: seq<Wchar>, name: seq<Wchar>)
    requires InBuffer(buf, search) && (forall i :: 0 <= i < |search| ==> search[i] != 0) && IsName(name)
    ensures AllAgree(buf, name) <==> SameName(search, name) && |name| < MAX_LFN
  {
    if AllAgree(buf, name) {
      AgreedIsSame(buf, search, name);
    }
    if SameName(search, name) && |name| < MAX_LFN {
      forall i | 0 <= i <= |name| ensures Agrees(buf, name, i) {
        assert i < |name| ==> buf[..|search|][i] == search[i];
      }
    }
  }

  lemma AgreedIsSame(buf: seq<Wchar>, search: seq<Wchar>, name: seq<Wchar>)
    requires InBuffer(buf, search) && (forall i :: 0 <= i < |search| ==> search[i] != 0) && IsName(name)
             && AllAgree(buf, name)
    ensures SameName(search, name) && |name| < MAX_LFN
  {
    forall i | 0 <= i < |name| ensures Agrees(buf, name, i) && buf[i] != 0 {
      assert SegmentAgrees(buf, name, i / 13 + 1);
    }
    var n := |name|;
    if n % 13 == 0 {
      assert SegmentAgrees(buf, name, n / 13);
    } else {
      assert SegmentAgrees(buf, name, n / 13 + 1) && Agrees(buf, name, n);
    }
    assert buf[n] == 0;
    assert search == buf[..|search|];
    forall i | 0 <= i < n ensures Upper(search[i]) == Upper(name[i]) {
      assert buf[..|search|][i] == search[i];
    }
  }

  /** test_lfn accepts every segment of a stored name exactly when the searched name is the same up to case
      and the stored one has at most 254 characters: a name of 255 characters can be stored but never found. */
  lemma AllSegmentsMatch(buf: seq<Wchar>, search: seq<Wchar>, dirs: seq<Slot>, name: seq<Wchar>, sum: byte)
    requires InBuffer(buf, search) && (forall i :: 0 <= i < |search| ==> search[i] != 0) && AreSegments(dirs, name, sum)
    ensures (forall k :: 0 <= k < |dirs| ==> 1 <= OrderOf(dirs[k][0]) && Matches(buf, dirs[k])) <==>
              SameName(search, name) && |name| < MAX_LFN
  {
    forall k | 0 <= k < |dirs|
      ensures OrderOf(dirs[k][0]) == k + 1 && (Matches(buf, dirs[k]) <==> SegmentAgrees(buf, name, k + 1))
    {
      SegmentMatches(buf, dirs[k], name, k + 1, sum);
    }
    AgreeIsSame(buf, search, name);
    if forall k :: 0 <= k < |dirs| ==> 1 <= OrderOf(dirs[k][0]) && Matches(buf, dirs[k]) {
      forall ord | 1 <= ord <= |dirs| ensures SegmentAgrees(buf, name, ord) {
        assert Matches(buf, dirs[ord - 1]);
      }
    }
  }

  // What dir_read collects from a run of entries: the last segment first, down to segment 1.
  ghost function PickAll(buf: seq<Wchar>, dirs: seq<Slot>): (r: seq<Wchar>)
    requires |buf| == MAX_LFN + 1
    ensures |r| == |buf|
    decreases |dirs|
  {
    if dirs == [] then buf
    else
      var n := |dirs| - 1;
      PickAll(Picked(buf, dirs[n], 13 * n, IsLast(dirs[n][0])), dirs[..n])
  }

  // Places of the buffer behind the segments still to be picked keep what they have.
  lemma {:induction false} PickAllKeeps(buf: seq<Wchar>, dirs: seq<Slot>, i: nat)
    requires |buf| == MAX_LFN + 1 && 13 * |dirs| <= i <= MAX_LFN && forall k :: 0 <= k < |dirs| ==> !IsLast(dirs[k][0])
    ensures PickAll(buf, dirs)[i] == buf[i]
    decreases |dirs|
  {
    if dirs == [] {
    } else {
      var n := |dirs| - 1;
      PickAllKeeps(Picked(buf, dirs[n], 13 * n, false), dirs[..n], i);
    }
  }

  // What one segment leaves in the buffer: its characters, and behind the last one the terminator.
  lemma PickedSegment(buf: seq<Wchar>, dir: Slot, name: seq<Wchar>, ord: nat, sum: byte)
    requires |buf| == MAX_LFN + 1 && IsName(name) && 1 <= ord <= 20 && 13 * (ord - 1) < |name|
             && IsSegment(dir, name, ord, sum)
    ensures IsLast(dir[0]) <==> |name| <= 13 * ord
    ensures var r := Picked(buf, dir, 13 * (ord - 1), IsLast(dir[0]));
            && (forall i :: 13 * (ord - 1) <= i < 13 * ord && i < |name| ==> r[i] == name[i])
            && (|name| <= 13 * ord ==> r[|name|] == 0)
  {
    OrderByte(dir, name, ord, sum);
    SegmentEnd(dir, name, ord, sum);
    var base, last := 13 * (ord - 1), IsLast(dir[0]);
    var r := Picked(buf, dir, base, last);
    forall i | base <= i < 13 * ord && i < |name| ensures r[i] == name[i] {
      SegmentCharAt(dir, name, ord, sum, i - base);
      assert r[i] == CharAt(dir, i - base);
    }
  }

  lemma SegmentCharAt(dir: Slot, name: seq<Wchar>, ord: nat, sum: byte, k: nat)
    requires 1 <= ord <= 20 && IsSegment(dir, name, ord, sum) && k < 13
    ensures CharAt(dir, k) == SegmentChar(name, ord, k)
  {
  }

  lemma NotLast(dirs: seq<Slot>, name: seq<Wchar>, sum: byte, n: nat)
    requires IsName(name) && 13 * n < |name| && n <= |dirs| && forall k :: 0 <= k < n ==>
               k < 20 && IsSegment(dirs[k], name, k + 1, sum)
    ensures forall k :: 0 <= k < n ==> !IsLast(dirs[..n][k][0])
  {
    forall k | 0 <= k < n ensures !IsLast(dirs[..n][k][0]) {
      OrderByte(dirs[k], name, k + 1, sum);
    }
  }

  // Segments in the middle of a name put their thirteen characters in place.
  lemma {:induction false} PickAllMiddle(buf: seq<Wchar>, dirs: seq<Slot>, name: seq<Wchar>, sum: byte, i: nat)
    requires |buf| == MAX_LFN + 1 && IsName(name) && 13 * |dirs| < |name| && i < 13 * |dirs|
    requires forall k :: 0 <= k < |dirs| ==> k < 20 && IsSegment(dirs[k], name, k + 1, sum)
    ensures PickAll(buf, dirs)[i] == name[i]
    decreases |dirs|
  {
    var n := |dirs| - 1;
    var next := Picked(buf, dirs[n], 13 * n, IsLast(dirs[n][0]));
    if i < 13 * n {
      PickAllMiddle(next, dirs[..n], name, sum, i);
    } else {
      PickedSegment(buf, dirs[n], name, n + 1, sum);
      NotLast(dirs, name, sum, n);
      PickAllKeeps(next, dirs[..n], i);
    }
  }

  /** The round trip: the segments fit_lfn wrote are reassembled to the name, terminator included, whatever the
      buffer held before. */
  lemma PickedIsName(buf: seq<Wchar>, dirs: seq<Slot>, name: seq<Wchar>, sum: byte)
    requires |buf| == MAX_LFN + 1 && AreSegments(dirs, name, sum)
    ensures InBuffer(PickAll(buf, dirs), name)
  {
    var n, r := |dirs| - 1, PickAll(buf, dirs);
    PickedSegment(buf, dirs[n], name, n + 1, sum);
    NotLast(dirs, name, sum, n);
    var next := Picked(buf, dirs[n], 13 * n, IsLast(dirs[n][0]));
    forall i | 0 <= i < |name| ensures r[i] == name[i] {
      if i < 13 * n {
        PickAllMiddle(next, dirs[..n], name, sum, i);
      } else {
        PickAllKeeps(next, dirs[..n], i);
      }
    }
    PickAllKeeps(next, dirs[..n], |name|);
  }
}
