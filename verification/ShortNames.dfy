/** 8.3 names: what create_name makes of a path segment, and what get_fileinfo makes of an entry. */
module ShortNames {
  import opened Bytes
  import opened CodePages
  import opened LongNames
  import opened FatFileSystem

  const SPACE: nat := 0x20
  const DOT: nat := 0x2E
  const UNDERSCORE: nat := 0x5F

  predicate IsUpper(c: nat) {
    0x41 <= c <= 0x5A
  }

  predicate IsLower(c: nat) {
    0x61 <= c <= 0x7A
  }

  // StrChr("+,;[=]", c), which also finds the terminator.
  predicate NotInShort(c: nat) {
    c == 0 || c == 0x2B || c == 0x2C || c == 0x3B || c == 0x5B || c == 0x3D || c == 0x5D
  }

  /** The name status byte: out of 8.3 format, no long name needed, extended characters,
      body and extension in lower case. */
  datatype NameStatus = NameStatus(loss: bool, noLfn: bool, wide: bool, lowBody: bool, lowExt: bool)

  datatype ShortName = ShortName(sfn: seq<byte>, status: NameStatus)

  /** The variables of the loop that makes the short name, without b. */
  datatype Scan = Scan(si: nat, i: nat, ni: nat, sfn: seq<byte>, loss: bool, wide: bool, done: bool)

  // b: its two pairs of bits say which cases occurred, in the body and behind it.
  datatype Cases = Cases(up: bool, low: bool, bodyUp: bool, bodyLow: bool)

  // Everything but spaces and dots in front.
  function SkipLead(name: seq<Wchar>, si: nat): (r: nat)
    requires si <= |name|
    ensures si <= r <= |name|
    ensures forall k :: si <= k < r ==> name[k] == SPACE || name[k] == DOT
    ensures r < |name| ==> name[r] != SPACE && name[r] != DOT
    decreases |name| - si
  {
    if si < |name| && (name[si] == SPACE || name[si] == DOT) then SkipLead(name, si + 1) else si
  }

  // Just behind the last dot, 0 if there is none.
  function LastDot(name: seq<Wchar>, di: nat): (r: nat)
    requires di <= |name|
    ensures r <= di && (0 < r ==> name[r - 1] == DOT)
    ensures forall k :: r <= k < di ==> name[k] != DOT
  {
    if di == 0 || name[di - 1] == DOT then di else LastDot(name, di - 1)
  }

  predicate ScanOk(name: seq<Wchar>, st: Scan) {
    |st.sfn| == 11 && st.si <= |name| && st.i <= st.ni && (st.ni == 8 || st.ni == 11)
  }

  // What is stored for code c.
  function Stored(c: byte): byte {
    if NotInShort(c) then UNDERSCORE else if IsLower(c) then c - 0x20 else c
  }

  // One character into the short name.
  function PutChar(st: Scan, c: byte): (r: Scan)
    requires |st.sfn| == 11 && st.i < st.ni <= 11
    ensures |r.sfn| == 11
  {
    Scan(st.si, st.i + 1, st.ni, st.sfn[st.i := Stored(c)], st.loss || NotInShort(c), st.wide || c >= 0x80, st.done)
  }

  predicate Removed(di: nat, st: Scan, w: Wchar) {
    w == SPACE || (w == DOT && st.si != di)
  }

  predicate PartEnds(di: nat, st: Scan) {
    st.i >= st.ni || st.si == di
  }

  // One turn of the loop on character w with code c, with si already moved on.
  function Turn(di: nat, st: Scan, w: Wchar, c: byte): (r: Scan)
    requires |st.sfn| == 11 && st.i <= st.ni && (st.ni == 8 || st.ni == 11)
    ensures |r.sfn| == 11 && r.i <= r.ni && (st.loss ==> r.loss) && (st.wide ==> r.wide)
            && (r.done && !st.done ==> r.loss)
    ensures (r.si == st.si && r.ni == st.ni) || (r.si == di && st.ni == 8 && r.ni == 11)
  {
    if Removed(di, st, w) then st.(loss := true)
    else if PartEnds(di, st) then
      if st.ni == 11 || st.si > di then st.(loss := true, done := true)
      else Scan(di, 8, 11, st.sfn, st.loss || st.si != di, st.wide, st.done)
    else PutChar(st, c)
  }

  function TurnCases(di: nat, st: Scan, w: Wchar, c: byte, cs: Cases): Cases {
    if Removed(di, st, w) then cs
    else if PartEnds(di, st) then if st.ni == 11 || st.si > di then cs else Cases(false, false, cs.up, cs.low)
    else cs.(up := cs.up || IsUpper(c), low := cs.low || IsLower(c))
  }

  // The loop, from a state on.
  function Finish(name: seq<Wchar>, di: nat, st: Scan): (r: Scan)
    requires ScanOk(name, st) && di <= |name|
    ensures |r.sfn| == 11 && (st.loss ==> r.loss) && (st.wide ==> r.wide)
    decreases 11 - st.ni, |name| - st.si
  {
    if st.done || st.si == |name| then st
    else Finish(name, di, Turn(di, st.(si := st.si + 1), name[st.si], ToOem(name[st.si])))
  }

  function FinishCases(name: seq<Wchar>, di: nat, st: Scan, cs: Cases): (r: Cases)
    requires ScanOk(name, st) && di <= |name|
    decreases 11 - st.ni, |name| - st.si
  {
    if st.done || st.si == |name| then cs
    else
      var st', w := st.(si := st.si + 1), name[st.si];
      FinishCases(name, di, Turn(di, st', w, ToOem(w)), TurnCases(di, st', w, ToOem(w), cs))
  }

  function Start(name: seq<Wchar>): Scan {
    var si := SkipLead(name, 0);
    Scan(si, 0, 8, seq(11, _ => 0x20), si > 0, false, false)
  }

  // What follows the loop: the 0xE5 replacement and the case flags.
  function Conclude(st: Scan, cs: Cases): (r: ShortName)
    requires |st.sfn| == 11
    ensures |r.sfn| == 11
  {
    var sfn := if st.sfn[0] == 0xE5 then st.sfn[0 := 0x05] else st.sfn;
    var c := if st.ni == 8 then Cases(false, false, cs.up, cs.low) else cs;
    var plain := !st.loss && !st.wide;
    ShortName(sfn, NameStatus(st.loss, plain && !(c.bodyUp && c.bodyLow) && !(c.up && c.low), st.wide,
      plain && c.bodyLow && !c.bodyUp, plain && c.low && !c.up))
  }

  /** The short name of a long one, as create_name makes it. */
  function ShortOf(name: seq<Wchar>): (r: ShortName)
    ensures |r.sfn| == 11
  {
    var di, st := LastDot(name, |name|), Start(name);
    Conclude(Finish(name, di, st), FinishCases(name, di, st, Cases(false, false, false, false)))
  }

  lemma SkipSame(a: seq<Wchar>, b: seq<Wchar>, si: nat)
    requires SameName(a, b) && si <= |a|
    ensures SkipLead(a, si) == SkipLead(b, si)
    decreases |a| - si
  {
    if si < |a| {
      SkipSame(a, b, si + 1);
    }
  }

  lemma LastSame(a: seq<Wchar>, b: seq<Wchar>, di: nat)
    requires SameName(a, b) && di <= |a|
    ensures LastDot(a, di) == LastDot(b, di)
  {
    if di > 0 {
      LastSame(a, b, di - 1);
    }
  }

  // Characters that agree up to case have codes that agree up to case.
  lemma CodesAlike(w: Wchar, v: Wchar)
    requires Upper(w) == Upper(v)
    ensures SameCode(ToOem(w), ToOem(v))
  {
  }

  ghost predicate SameCode(c: byte, d: byte) {
    Stored(c) == Stored(d) && NotInShort(c) == NotInShort(d) && (c >= 0x80 <==> d >= 0x80)
  }

  lemma TurnAlike(di: nat, st: Scan, w: Wchar, v: Wchar, c: byte, d: byte)
    requires |st.sfn| == 11 && st.i <= st.ni && (st.ni == 8 || st.ni == 11) && Upper(w) == Upper(v) && SameCode(c, d)
    ensures Turn(di, st, w, c) == Turn(di, st, v, d)
  {
  }

  lemma {:induction false} FinishAlike(a: seq<Wchar>, b: seq<Wchar>, di: nat, st: Scan)
    requires SameName(a, b) && di <= |a| && ScanOk(a, st)
    ensures Finish(a, di, st) == Finish(b, di, st)
    decreases 11 - st.ni, |a| - st.si
  {
    if !st.done && st.si < |a| {
      var st', w, v := st.(si := st.si + 1), a[st.si], b[st.si];
      CodesAlike(w, v);
      TurnAlike(di, st', w, v, ToOem(w), ToOem(v));
      FinishAlike(a, b, di, Turn(di, st', w, ToOem(w)));
    }
  }

  /** Names that a lookup takes for the same have the same short name, up to the case flags. */
  lemma SameShort(a: seq<Wchar>, b: seq<Wchar>)
    requires SameName(a, b)
    ensures ShortOf(a).sfn == ShortOf(b).sfn
    ensures ShortOf(a).status.loss == ShortOf(b).status.loss && ShortOf(a).status.wide == ShortOf(b).status.wide
  {
    SkipSame(a, b, 0);
    LastSame(a, b, |a|);
    FinishAlike(a, b, LastDot(a, |a|), Start(a));
  }

  // What get_fileinfo shows for one character of the short name.
  function ShowChar(c: byte, low: bool, body: bool): byte {
    var c' := if body && c == 0x05 then 0xE5 else c;
    if low && IsUpper(c') then c' + 0x20 else c'
  }

  function Shown(part: seq<byte>, low: bool, body: bool): seq<byte> {
    if part == [] || part[0] == SPACE then [] else [ShowChar(part[0], low, body)] + Shown(part[1..], low, body)
  }

  /** The name get_fileinfo makes of a short-name entry. */
  function DisplayName(dir: Slot): seq<byte> {
    Shown(dir[..8], dir[12] / 0x08 % 2 == 1, true)
    + if dir[8] == SPACE then [] else [DOT] + Shown(dir[8..11], dir[12] / 0x10 % 2 == 1, false)
  }

  // One of the two copying loops of get_fileinfo, which goes on from where the name p0 ends.
  method CopyPart(dir: Slot, from: nat, end: nat, low: bool, body: bool, p0: seq<byte>) returns (p: seq<byte>)
    requires from <= end <= 11
    ensures p == p0 + Shown(dir[from..end], low, body)
  {
    p := p0;
    var i := from;
    while i < end
      invariant from <= i <= end
      invariant p + Shown(dir[i..end], low, body) == p0 + Shown(dir[from..end], low, body)
    {
      var c := dir[i];
      if c == SPACE {
        break;
      }
      if body && c == 0x05 {
        c := 0xE5;
      }
      if low && IsUpper(c) {
        c := c + 0x20;
      }
      ghost var rest := Shown(dir[i + 1..end], low, body);
      assert dir[i..end][1..] == dir[i + 1..end];
      assert p + ([c] + rest) == (p + [c]) + rest;
      p := p + [c];
      i := i + 1;
    }
  }

  method GetFileName(dir: Slot) returns (p: seq<byte>)
    ensures p == DisplayName(dir)
  {
    var nt := dir[12];
    p := CopyPart(dir, 0, 8, nt / 0x08 % 2 == 1, true, []);
    assert dir[0..8] == dir[..8];
    if dir[8] != SPACE {
      p := p + [DOT];
      p := CopyPart(dir, 8, 11, nt / 0x10 % 2 == 1, false, p);
    }
  }

  // The entry dir_register writes for a short name: nothing but the name and the two case flags.
  function EntryOf(s: ShortName): Slot
    requires |s.sfn| == 11
  {
    s.sfn + [0, (if s.status.lowBody then 0x08 else 0) + (if s.status.lowExt then 0x10 else 0)] + Zero(19)
  }

  function Zero(n: nat): (r: seq<byte>)
    ensures |r| == n && forall k :: 0 <= k < n ==> r[k] == 0
  {
    if n == 0 then [] else Zero(n - 1) + [0]
  }

  // Characters a to a + n of the name stand in the short name from o on, and up and low tell of their cases.
  ghost predicate Fits(name: seq<Wchar>, a: nat, n: nat, sfn: seq<byte>, o: nat, up: bool, low: bool) {
    && a + n <= |name| && o + n <= |sfn|
    && forall k {:trigger sfn[k]} :: o <= k < o + n ==> FitChar(name[k - o + a], sfn[k], up, low)
  }

  ghost predicate FitChar(w: Wchar, b: byte, up: bool, low: bool) {
    && w < 0x80 && w != SPACE && w != DOT && b == Upper(w)
    && (IsUpper(w) ==> up) && (IsLower(w) ==> low)
  }

  ghost predicate Blank(sfn: seq<byte>, o: nat, end: nat) {
    end <= |sfn| && forall k :: o <= k < end ==> sfn[k] == SPACE
  }

  // The scan while nothing has been lost: the characters so far stand in their parts.
  ghost predicate Tracks(name: seq<Wchar>, di: nat, st: Scan, cs: Cases) {
    && |st.sfn| == 11 && st.si <= |name| && !st.done && di <= |name| && (0 < di ==> name[di - 1] == DOT)
    && if st.ni == 8 then
         && st.i == st.si <= 8 && (di == 0 || st.si < di)
         && Fits(name, 0, st.si, st.sfn, 0, cs.up, cs.low) && Blank(st.sfn, st.si, 11)
       else
         && st.ni == 11 && 0 < di <= st.si && di <= 9 && st.i == 8 + (st.si - di) <= 11
         && Fits(name, 0, di - 1, st.sfn, 0, cs.bodyUp, cs.bodyLow) && Blank(st.sfn, di - 1, 8)
         && Fits(name, di, st.si - di, st.sfn, 8, cs.up, cs.low) && Blank(st.sfn, st.i, 11)
  }

  // One more character put behind those of a part.
  lemma FitsMore(name: seq<Wchar>, a: nat, n: nat, sfn: seq<byte>, o: nat, up: bool, low: bool, c: byte)
    requires Fits(name, a, n, sfn, o, up, low) && a + n < |name| && o + n < |sfn|
    requires c == name[a + n] && c < 0x80 && c != SPACE && c != DOT && !NotInShort(c)
    ensures Fits(name, a, n + 1, sfn[o + n := Stored(c)], o, up || IsUpper(c), low || IsLower(c))
  {
    var sfn' := sfn[o + n := Stored(c)];
    forall k | o <= k < o + n + 1
      ensures FitChar(name[k - o + a], sfn'[k], up || IsUpper(c), low || IsLower(c))
    {
      if k < o + n {
        assert sfn'[k] == sfn[k];
      }
    }
  }

  lemma FitsStill(name: seq<Wchar>, a: nat, n: nat, sfn: seq<byte>, o: nat, up: bool, low: bool, sfn': seq<byte>)
    requires Fits(name, a, n, sfn, o, up, low) && |sfn'| == |sfn| && forall k :: o <= k < o + n ==> sfn'[k] == sfn[k]
    ensures Fits(name, a, n, sfn', o, up, low)
  {
  }

  // The turn that puts a character into its part.
  lemma PutTracks(name: seq<Wchar>, di: nat, st: Scan, cs: Cases, c: byte)
    requires Tracks(name, di, st, cs) && st.si < |name| && c == name[st.si] && c < 0x80 && c != SPACE && !NotInShort(c)
    requires st.i < st.ni && st.si + 1 != di && c != DOT
    ensures Tracks(name, di, PutChar(st.(si := st.si + 1), c),
            cs.(up := cs.up || IsUpper(c), low := cs.low || IsLower(c)))
  {
    if st.ni == 8 {
      FitsMore(name, 0, st.si, st.sfn, 0, cs.up, cs.low, c);
    } else {
      PutExtension(name, di, st, cs, c);
    }
  }

  lemma PutExtension(name: seq<Wchar>, di: nat, st: Scan, cs: Cases, c: byte)
    requires Tracks(name, di, st, cs) && st.ni == 11 && st.i < 11
    requires st.si < |name| && c == name[st.si] && c < 0x80 && c != SPACE && c != DOT && !NotInShort(c)
    ensures var sfn' := st.sfn[st.i := Stored(c)];
            && Fits(name, 0, di - 1, sfn', 0, cs.bodyUp, cs.bodyLow) && Blank(sfn', di - 1, 8)
            && Blank(sfn', st.i + 1, 11)
            && Fits(name, di, st.si - di + 1, sfn', 8, cs.up || IsUpper(c), cs.low || IsLower(c))
  {
    FitsMore(name, di, st.si - di, st.sfn, 8, cs.up, cs.low, c);
    FitsStill(name, 0, di - 1, st.sfn, 0, cs.bodyUp, cs.bodyLow, st.sfn[st.i := Stored(c)]);
  }

  lemma TurnTracks(name: seq<Wchar>, di: nat, st: Scan, cs: Cases, c: byte)
    requires Tracks(name, di, st, cs) && st.si < |name| && c == ToOem(name[st.si])
    requires var r := Turn(di, st.(si := st.si + 1), name[st.si], c); !r.loss && !r.wide
    ensures Tracks(name, di, Turn(di, st.(si := st.si + 1), name[st.si], c),
                   TurnCases(di, st.(si := st.si + 1), name[st.si], c, cs))
  {
    var w, st' := name[st.si], st.(si := st.si + 1);
    if !Removed(di, st', w) && !PartEnds(di, st') {
      OemPlain(w, c);
      PutTracks(name, di, st, cs, c);
    }
  }

  lemma OemPlain(w: Wchar, c: byte)
    requires c == ToOem(w) && c < 0x80
    ensures c == w || c == 0
  {
  }

  lemma {:induction false} FinishTracks(name: seq<Wchar>, di: nat, st: Scan, cs: Cases)
    requires Tracks(name, di, st, cs)
    requires var r := Finish(name, di, st); !r.loss && !r.wide
    ensures Tracks(name, di, Finish(name, di, st), FinishCases(name, di, st, cs))
    ensures Finish(name, di, st).si == |name|
    decreases 11 - st.ni, |name| - st.si
  {
    if st.si < |name| {
      var st', w := st.(si := st.si + 1), name[st.si];
      var r := Turn(di, st', w, ToOem(w));
      TurnTracks(name, di, st, cs, ToOem(w));
      FinishTracks(name, di, r, TurnCases(di, st', w, ToOem(w), cs));
    }
  }

  lemma FitsTail(name: seq<Wchar>, a: nat, n: nat, sfn: seq<byte>, o: nat, up: bool, low: bool)
    requires 0 < n && Fits(name, a, n, sfn, o, up, low)
    ensures FitChar(name[a], sfn[o], up, low) && Fits(name, a + 1, n - 1, sfn, o + 1, up, low)
  {
    assert sfn[o] == sfn[o];
  }

  // A part of the short name is shown as the characters it came from.
  lemma {:induction false} ShownPart(part: seq<byte>, name: seq<Wchar>, a: nat, n: nat, up: bool, low: bool, body: bool)
    requires Fits(name, a, n, part, 0, up, low) && (n < |part| ==> part[n] == SPACE)
    requires !(up && low) && forall k :: a <= k < a + n ==> name[k] >= SPACE
    ensures Shown(part, low, body) == name[a..a + n]
    decreases n
  {
    if n == 0 {
    } else {
      FitsTail(name, a, n, part, 0, up, low);
      FitsShift(name, a + 1, n - 1, part, 1, up, low, |part|);
      ShownPart(part[1..], name, a + 1, n - 1, up, low, body);
      assert name[a..a + n] == [name[a]] + name[a + 1..a + n];
    }
  }

  lemma FitsShift(name: seq<Wchar>, a: nat, n: nat, sfn: seq<byte>, o: nat, up: bool, low: bool, end: nat)
    requires Fits(name, a, n, sfn, o, up, low) && o + n <= end <= |sfn|
    ensures Fits(name, a, n, sfn[o..end], 0, up, low)
  {
    forall k | 0 <= k < n ensures FitChar(name[k - 0 + a], sfn[o..end][k], up, low) {
      assert sfn[o..end][k] == sfn[o + k];
    }
  }

  /** The 8.3 round trip: where no long name is needed, the entry is shown as the name itself, case included. */
  lemma ShortNameRoundTrip(name: seq<Wchar>)
    requires 0 < |name| && name[|name| - 1] != SPACE && name[|name| - 1] != DOT
    requires forall k :: 0 <= k < |name| ==> name[k] >= SPACE
    requires ShortOf(name).status.noLfn
    ensures DisplayName(EntryOf(ShortOf(name))) == name && forall k :: 0 <= k < |name| ==> name[k] < 0x80
  {
    var di, st0, cs0 := LastDot(name, |name|), Start(name), Cases(false, false, false, false);
    FinishTracks(name, di, st0, cs0);
    PlainTracked(name, di, Finish(name, di, st0), FinishCases(name, di, st0, cs0));
    ShownTracked(name, di, Finish(name, di, st0), FinishCases(name, di, st0, cs0));
  }

  lemma PlainTracked(name: seq<Wchar>, di: nat, st: Scan, cs: Cases)
    requires Tracks(name, di, st, cs) && st.si == |name|
    ensures forall k :: 0 <= k < |name| ==> name[k] < 0x80
  {
    var s := st.sfn;
    forall k | 0 <= k < |name| ensures name[k] < 0x80 {
      if st.ni == 8 {
        assert FitChar(name[k - 0 + 0], s[k], cs.up, cs.low);
      } else if k < di - 1 {
        assert FitChar(name[k - 0 + 0], s[k], cs.bodyUp, cs.bodyLow);
      } else if k >= di {
        var j := 8 + (k - di);
        assert FitChar(name[j - 8 + di], s[j], cs.up, cs.low);
      }
    }
  }

  lemma ShownTracked(name: seq<Wchar>, di: nat, st: Scan, cs: Cases)
    requires Tracks(name, di, st, cs) && st.si == |name| > 0 && !st.loss && !st.wide
    requires name[|name| - 1] != DOT && forall k :: 0 <= k < |name| ==> name[k] >= SPACE
    requires Conclude(st, cs).status.noLfn
    ensures DisplayName(EntryOf(Conclude(st, cs))) == name
  {
    var s := Conclude(st, cs);
    var dir := EntryOf(s);
    FlagsBack(s);
    if st.ni == 8 {
      NotE5(name, |name|, st.sfn, cs.up, cs.low);
      ShownBody(dir, st.sfn, name, cs.up, cs.low);
    } else {
      NotE5(name, di - 1, st.sfn, cs.bodyUp, cs.bodyLow);
      ShownBoth(dir, st.sfn, name, di, cs);
    }
  }

  lemma ShownBody(dir: Slot, sfn: seq<byte>, name: seq<Wchar>, up: bool, low: bool)
    requires |sfn| == 11 && dir[..11] == sfn && (dir[12] / 0x08 % 2 == 1 <==> low) && !(up && low)
    requires |name| <= 8 && Fits(name, 0, |name|, sfn, 0, up, low) && Blank(sfn, |name|, 11)
    requires forall k :: 0 <= k < |name| ==> name[k] >= SPACE
    ensures DisplayName(dir) == name
  {
    ShownInSfn(dir, sfn, 0, 8, name, 0, |name|, up, low, true);
    assert dir[0..8] == dir[..8] && name[0..|name|] == name;
    assert dir[..11][8] == sfn[8] == SPACE;
  }

  lemma ShownBoth(dir: Slot, sfn: seq<byte>, name: seq<Wchar>, di: nat, cs: Cases)
    requires |sfn| == 11 && dir[..11] == sfn
    requires dir[12] / 0x08 % 2 == 1 <==> cs.bodyLow
    requires dir[12] / 0x10 % 2 == 1 <==> cs.low
    requires !(cs.bodyUp && cs.bodyLow) && !(cs.up && cs.low) && 0 < di <= 9 && di < |name| <= di + 3
             && name[di - 1] == DOT
    requires Fits(name, 0, di - 1, sfn, 0, cs.bodyUp, cs.bodyLow) && Blank(sfn, di - 1, 8)
    requires Fits(name, di, |name| - di, sfn, 8, cs.up, cs.low) && Blank(sfn, 8 + (|name| - di), 11)
    requires forall k :: 0 <= k < |name| ==> name[k] >= SPACE
    ensures DisplayName(dir) == name
  {
    hide Fits, Shown;
    ShownInSfn(dir, sfn, 0, 8, name, 0, di - 1, cs.bodyUp, cs.bodyLow, true);
    ShownInSfn(dir, sfn, 8, 11, name, di, |name| - di, cs.up, cs.low, false);
    assert dir[0..8] == dir[..8];
    FitsTail(name, di, |name| - di, sfn, 8, cs.up, cs.low);
    assert dir[..11][8] == sfn[8] != SPACE;
    assert name == name[0..di - 1] + ([DOT] + name[di..|name|]);
  }

  lemma ShownInSfn(dir: Slot, sfn: seq<byte>, o: nat, end: nat, name: seq<Wchar>, a: nat, n: nat, up: bool, low: bool,
      body: bool)
    requires |sfn| == 11 && dir[..11] == sfn && o + n <= end <= 11 && Fits(name, a, n, sfn, o, up, low)
             && Blank(sfn, o + n, end)
    requires !(up && low) && forall k :: a <= k < a + n ==> name[k] >= SPACE
    ensures Shown(dir[o..end], low, body) == name[a..a + n]
  {
    assert dir[o..end] == sfn[o..end];
    FitsShift(name, a, n, sfn, o, up, low, end);
    ShownPart(sfn[o..end], name, a, n, up, low, body);
  }

  lemma NotE5(name: seq<Wchar>, n: nat, sfn: seq<byte>, up: bool, low: bool)
    requires |sfn| == 11 && Fits(name, 0, n, sfn, 0, up, low) && (n == 0 ==> sfn[0] == SPACE)
    ensures sfn[0] != 0xE5
  {
  }

  lemma FlagsBack(s: ShortName)
    requires |s.sfn| == 11
    ensures var dir := EntryOf(s);
            && dir[..11] == s.sfn
            && (dir[12] / 0x08 % 2 == 1 <==> s.status.lowBody) && (dir[12] / 0x10 % 2 == 1 <==> s.status.lowExt)
  {
  }

  const TILDE: byte := 0x7E

  // A path is a string: behind its characters comes the terminator.
  function PathAt(path: seq<byte>, i: nat): byte {
    if i < |path| then path[i] else 0
  }

  predicate EndsSegment(c: byte) {
    c < 0x20 || c == 0x2F || c == 0x5C
  }

  // The characters no name may have: those of the string in create_name, and codes the code page does not know.
  predicate Rejected(c: byte) {
    c in [0x22, 0x2A, 0x3A, 0x3C, 0x3E, 0x3F, 0x7C, 0x7F] || ToUnicode(c) == 0
  }

  function PathSegmentEnd(path: seq<byte>, i: nat): (r: nat)
    requires i <= |path|
    ensures i <= r <= |path| && EndsSegment(PathAt(path, r))
    ensures forall k :: i <= k < r ==> !EndsSegment(path[k])
    decreases |path| - i
  {
    if EndsSegment(PathAt(path, i)) then i else PathSegmentEnd(path, i + 1)
  }

  function Unicode(part: seq<byte>): (r: seq<Wchar>)
    ensures |r| == |part| && forall k :: 0 <= k < |r| ==> r[k] == ToUnicode(part[k])
  {
    if part == [] then [] else Unicode(part[..|part| - 1]) + [ToUnicode(part[|part| - 1])]
  }

  // Without the spaces and dots at the end.
  function Stripped(name: seq<Wchar>): (r: seq<Wchar>)
    ensures r <= name
    ensures r != [] ==> r[|r| - 1] != SPACE && r[|r| - 1] != DOT
    ensures forall k :: |r| <= k < |name| ==> name[k] == SPACE || name[k] == DOT
  {
    if name != [] && (name[|name| - 1] == SPACE || name[|name| - 1] == DOT) then Stripped(name[..|name| - 1]) else name
  }

  // The name a path segment stands for.
  function SegmentName(path: seq<byte>): seq<Wchar> {
    Stripped(Unicode(path[..PathSegmentEnd(path, 0)]))
  }

  predicate Acceptable(path: seq<byte>) {
    var end := PathSegmentEnd(path, 0);
    end <= MAX_LFN && (forall k :: 0 <= k < end ==> !Rejected(path[k])) && SegmentName(path) != []
  }

  // A path segment that is accepted makes a name a directory can hold.
  lemma SegmentIsName(path: seq<byte>)
    requires Acceptable(path)
    ensures var name := SegmentName(path);
            && IsName(name) && (forall k :: 0 <= k < |name| ==> name[k] >= SPACE)
            && name[|name| - 1] != SPACE && name[|name| - 1] != DOT
  {
    var end, name := PathSegmentEnd(path, 0), SegmentName(path);
    forall k | 0 <= k < |name| ensures name[k] != 0 && name[k] != 0xFFFF && name[k] >= SPACE {
      assert name[k] == Unicode(path[..end])[k] == ToUnicode(path[k]);
      assert !Rejected(path[k]) && !EndsSegment(path[k]);
      CodePagePlain(path[k]);
    }
  }

  /** The 8.3 round trip from the path: where create_name finds no long name necessary, get_fileinfo shows the
      entry as the path segment, with its spaces and dots at the end stripped. */
  lemma SegmentRoundTrip(path: seq<byte>)
    requires Acceptable(path) && ShortOf(SegmentName(path)).status.noLfn
    ensures |SegmentName(path)| <= |path|
    ensures DisplayName(EntryOf(ShortOf(SegmentName(path)))) == path[..|SegmentName(path)|]
  {
    var end, name := PathSegmentEnd(path, 0), SegmentName(path);
    SegmentIsName(path);
    ShortNameRoundTrip(name);
    forall k | 0 <= k < |name| ensures name[k] == path[k] {
      assert name[k] == Unicode(path[..end])[k] == ToUnicode(path[k]);
      CodePagePlain(path[k]);
    }
  }

  /** create_name: the first segment of the path, into the buffer and into a short name. */
  method CreateName(path: seq<byte>, lfn: array<Wchar>) returns (res: FResult, short: ShortName, last: bool, next: nat)
    requires lfn.Length == MAX_LFN + 1
    modifies lfn
    ensures res == if Acceptable(path) then Ok else InvalidName
    ensures res == Ok ==>
              InBuffer(lfn[..], SegmentName(path)) && short == ShortOf(SegmentName(path))
              && |short.sfn| == 11
    ensures res == Ok ==> next == PathSegmentEnd(path, 0) + 1 && last == (PathAt(path, next - 1) < 0x20)
  {
    short, last, next := ShortName([], NameStatus(false, false, false, false, false)), false, 0;
    var di, w, end := NameSegment(path, lfn);
    if di == 0 {
      return InvalidName, short, last, next;
    }
    next := end + 1;
    last := w < 0x20;
    ghost var name := SegmentName(path);
    lfn[di] := 0;
    assert lfn[..][..di] == lfn[..di];
    short := MakeShort(lfn, name);
    res := Ok;
  }

  // The name of the segment, without its terminator: di is its length, 0 where it is rejected.
  method NameSegment(path: seq<byte>, lfn: array<Wchar>) returns (di: nat, w: int, end: nat)
    requires lfn.Length == MAX_LFN + 1
    modifies lfn
    ensures di != 0 <==> Acceptable(path)
    ensures di != 0 ==> di <= MAX_LFN && lfn[..di] == SegmentName(path) && (forall k :: 0 <= k < di ==> lfn[k] != 0)
    ensures di != 0 ==> end == PathSegmentEnd(path, 0) && w == PathAt(path, end)
  {
    end, w := LoadSegment(path, lfn);
    if w == -1 {
      return 0, w, end;
    }
    di := StripTail(lfn, end);
  }

  // Trailing spaces and dots do not count.
  method StripTail(lfn: array<Wchar>, n: nat) returns (di: nat)
    requires n <= lfn.Length
    ensures di <= n && lfn[..di] == Stripped(lfn[..n])
  {
    di := n;
    while di > 0 && (lfn[di - 1] == SPACE || lfn[di - 1] == DOT)
      invariant di <= n && Stripped(lfn[..di]) == Stripped(lfn[..n])
    {
      assert lfn[..di][..di - 1] == lfn[..di - 1];
      di := di - 1;
    }
  }

  // The first loop of create_name; -1 for w where the name is rejected.
  method LoadSegment(path: seq<byte>, lfn: array<Wchar>) returns (di: nat, w: int)
    requires lfn.Length == MAX_LFN + 1
    modifies lfn
    ensures var end := PathSegmentEnd(path, 0);
            if end <= MAX_LFN && forall k :: 0 <= k < end ==> !Rejected(path[k]) then
              di == end && w == PathAt(path, end) && lfn[..di] == Unicode(path[..end])
              && (forall k :: 0 <= k < di ==> lfn[k] != 0)
            else w == -1
  {
    hide ToUnicode;
    var si := 0;
    di := 0;
    while true
      invariant si == di <= MAX_LFN && si <= |path| && PathSegmentEnd(path, 0) == PathSegmentEnd(path, si)
      invariant forall k :: 0 <= k < si ==> !Rejected(path[k]) && lfn[k] != 0
      invariant lfn[..di] == Unicode(path[..di])
      decreases |path| - si
    {
      var c := PathAt(path, si);
      si := si + 1;
      w := c;
      if EndsSegment(c) {
        return;
      }
      if c in [0x22, 0x2A, 0x3A, 0x3C, 0x3E, 0x3F, 0x7C, 0x7F] {
        assert Rejected(path[di]);
        return di, -1;
      }
      var u := ToUnicode(c);
      if u == 0 || di >= MAX_LFN {
        assert u == 0 ==> Rejected(path[di]);
        return di, -1;
      }
      lfn[di] := u;
      assert path[..di + 1][..di] == path[..di];
      di := di + 1;
    }
  }

  // The second part of create_name.
  method MakeShort(lfn: array<Wchar>, ghost name: seq<Wchar>) returns (short: ShortName)
    requires InBuffer(lfn[..], name) && forall k :: 0 <= k < |name| ==> name[k] != 0
    ensures short == ShortOf(name)
  {
    assert forall k :: 0 <= k < |name| ==> lfn[..][..|name|][k] == lfn[k];
    var si, di := 0, 0;
    while lfn[si] == SPACE || lfn[si] == DOT
      invariant si <= |name| && SkipLead(name, si) == SkipLead(name, 0)
      decreases |name| - si
    {
      si := si + 1;
    }
    while lfn[di] != 0
      invariant di <= |name|
      decreases |name| - di
    {
      di := di + 1;
    }
    while di > 0 && lfn[di - 1] != DOT
      invariant di <= |name| && LastDot(name, di) == LastDot(name, |name|)
    {
      di := di - 1;
    }
    short := ScanName(lfn, name, si, di);
  }

  // One turn of the loop, and its end.
  lemma FinishStep(name: seq<Wchar>, di: nat, st: Scan, cs: Cases)
    requires ScanOk(name, st) && di <= |name| && !st.done && st.si < |name|
    ensures var w, st' := name[st.si], st.(si := st.si + 1);
            var next, cs' := Turn(di, st', w, ToOem(w)), TurnCases(di, st', w, ToOem(w), cs);
            && ScanOk(name, next) && Finish(name, di, next) == Finish(name, di, st)
            && FinishCases(name, di, next, cs') == FinishCases(name, di, st, cs)
  {
    hide ToOem;
  }

  lemma FinishEnd(name: seq<Wchar>, di: nat, st: Scan, cs: Cases)
    requires ScanOk(name, st) && di <= |name| && (st.done || st.si == |name|)
    ensures Finish(name, di, st) == st && FinishCases(name, di, st, cs) == cs
  {
  }

  // One turn of the loop that fills in the short name, on character w in front of si.
  method ScanTurn(w: Wchar, di: nat, si0: nat, i0: nat, ni0: nat, sfn0: seq<byte>, loss0: bool, wide0: bool, b0: Cases)
    returns (done: bool, si: nat, i: nat, ni: nat, sfn: seq<byte>, loss: bool, wide: bool, b: Cases)
    requires |sfn0| == 11 && i0 <= ni0 && (ni0 == 8 || ni0 == 11)
    ensures Scan(si, i, ni, sfn, loss, wide, done) == Turn(di, Scan(si0, i0, ni0, sfn0, loss0, wide0, false), w,
            ToOem(w))
    ensures b == TurnCases(di, Scan(si0, i0, ni0, sfn0, loss0, wide0, false), w, ToOem(w), b0)
  {
    hide ToOem, NotInShort;
    done, si, i, ni, sfn, loss, wide, b := false, si0, i0, ni0, sfn0, loss0, wide0, b0;
    if w == SPACE || (w == DOT && si != di) {
      loss := true;
      return;
    }
    if i >= ni || si == di {
      if ni == 11 {
        loss, done := true, true;
        return;
      }
      if si != di {
        loss := true;
      }
      if si > di {
        done := true;
        return;
      }
      si, i, ni := di, 8, 11;
      b := Cases(false, false, b.up, b.low);
      return;
    }
    var c := ToOem(w);
    if c >= 0x80 {
      wide := true;
    }
    if NotInShort(c) {
      c := UNDERSCORE;
      loss := true;
    } else if IsUpper(c) {
      b := b.(up := true);
    } else if IsLower(c) {
      b := b.(low := true);
      c := c - 0x20;
    }
    NoCase(ToOem(w));
    sfn := sfn[i := c];
    i := i + 1;
  }

  // The characters that are replaced are no letters.
  lemma NoCase(c: byte)
    ensures NotInShort(c) ==> !IsUpper(c) && !IsLower(c)
  {
  }

  // The loop that fills in the short name, and what follows it.
  method ScanName(lfn: array<Wchar>, ghost name: seq<Wchar>, si0: nat, di: nat) returns (short: ShortName)
    requires InBuffer(lfn[..], name) && forall k :: 0 <= k < |name| ==> name[k] == lfn[k] != 0
    requires si0 == SkipLead(name, 0) && di == LastDot(name, |name|)
    ensures short == ShortOf(name)
  {
    var si: nat, i: nat, ni: nat := si0, 0, 8;
    var loss, wide, done := si0 > 0, false, false;
    var sfn: seq<byte> := seq(11, _ => 0x20);
    var b := Cases(false, false, false, false);
    ghost var st, b0 := Start(name), b;
    hide Finish, FinishCases, ToOem, Turn, TurnCases, Conclude;
    while !done && lfn[si] != 0
      invariant ScanOk(name, st) && st == Scan(si, i, ni, sfn, loss, wide, done)
      invariant Finish(name, di, st) == Finish(name, di, Start(name))
      invariant FinishCases(name, di, st, b) == FinishCases(name, di, Start(name), b0)
      decreases !done, 11 - ni, |name| - si
    {
      var w := lfn[si];
      FinishStep(name, di, st, b);
      st := Turn(di, st.(si := si + 1), w, ToOem(w));
      done, si, i, ni, sfn, loss, wide, b := ScanTurn(w, di, si + 1, i, ni, sfn, loss, wide, b);
    }
    FinishEnd(name, di, st, b);
    short := ConcludeScan(st, b, sfn, ni, loss, wide);
  }

  method ConcludeScan(ghost st: Scan, cs: Cases, sfn0: seq<byte>, ni: nat, loss: bool, wide: bool)
    returns (short: ShortName)
    requires |sfn0| == 11 && st.sfn == sfn0 && st.ni == ni && st.loss == loss && st.wide == wide
    ensures short == Conclude(st, cs)
  {
    var sfn, b := sfn0, cs;
    if sfn[0] == 0xE5 {
      sfn := sfn[0 := 0x05];
    }
    if ni == 8 {
      b := Cases(false, false, b.up, b.low);
    }
    var noLfn, lowBody, lowExt := false, false, false;
    if !loss && !wide {
      lowExt := b.low && !b.up;
      lowBody := b.bodyLow && !b.bodyUp;
      noLfn := !(b.bodyUp && b.bodyLow) && !(b.up && b.low);
    }
    short := ShortName(sfn, NameStatus(loss, noLfn, wide, lowBody, lowExt));
  }

  // sum_sfn of the first n characters.
  function SumOf(sfn: seq<byte>, n: nat): byte
    requires n <= |sfn|
  {
    if n == 0 then 0 else RollSum(SumOf(sfn, n - 1), sfn[n - 1])
  }

  function RollSum(sum: byte, c: byte): byte {
    (sum / 2 + sum * 0x80 + c) % 0x100
  }

  method SumSfn(dir: seq<byte>) returns (sum: byte)
    requires 11 <= |dir|
    ensures sum == SumOf(dir, 11)
  {
    var n := 11;
    sum := 0;
    while n > 0
      invariant 0 <= n <= 11 && sum == SumOf(dir, 11 - n)
    {
      sum := RollSum(sum, dir[11 - n]);
      n := n - 1;
    }
  }

  // The checksum of a short name depends on it alone.
  lemma {:induction false} SumOfSame(a: seq<byte>, b: seq<byte>, n: nat)
    requires n <= |a| && n <= |b| && a[..n] == b[..n]
    ensures SumOf(a, n) == SumOf(b, n)
  {
    if n == 0 {
    } else {
      assert a[..n - 1] == a[..n][..n - 1] && a[n - 1] == a[..n][n - 1];
      assert b[..n - 1] == b[..n][..n - 1] && b[n - 1] == b[..n][n - 1];
      SumOfSame(a, b, n - 1);
    }
  }

  // num in decimal, at most five digits for a WORD.
  function Digits(num: nat): (r: seq<byte>)
    ensures 1 <= |r| && (num < 10 ==> |r| == 1) && (num < 0x1_0000 ==> |r| <= 5)
    ensures num < 100 ==> |r| <= 2
    ensures num < 1000 ==> |r| <= 3
    ensures num < 10000 ==> |r| <= 4
    ensures forall k :: 0 <= k < |r| ==> 0x30 <= r[k] <= 0x39
  {
    var d: byte := num % 10 + 0x30;
    if num < 10 then [d] else Digits(num / 10) + [d]
  }

  // The number gen_numname appends: the sequence number itself up to 5, then a hash of the long name.
  function HashOf(lfn: seq<Wchar>, num: nat): nat {
    if lfn == [] then num else HashOf(lfn[1..], RollHash(num, lfn[0]))
  }

  function RollHash(num: nat, w: Wchar): (r: nat)
    ensures r < 0x1_0000
  {
    (num / 2 + num * 0x8000 + w) % 0x1_0000
  }

  function NumberTail(lfn: seq<Wchar>, num: nat): seq<byte> {
    [TILDE] + Digits(if num > 5 then HashOf(lfn, num) else num)
  }

  // The characters of the body that are kept in front of the number.
  function Kept(src: seq<byte>, room: nat, j: nat): (r: nat)
    requires j <= room <= |src|
    ensures j <= r <= room && (r < room ==> src[r] == SPACE)
    ensures forall k :: j <= k < r ==> src[k] != SPACE
    decreases room - j
  {
    if j < room && src[j] != SPACE then Kept(src, room, j + 1) else j
  }

  /** The numbered name: as much of the body as there is room for, "~" and the number, then spaces; the
      extension stays. */
  ghost predicate IsNumbered(dst: seq<byte>, src: seq<byte>, tail: seq<byte>)
    requires |src| == 11 && |tail| <= 8
  {
    var j := Kept(src, 8 - |tail|, 0);
    && |dst| == 11 && dst[..j] == src[..j] && dst[j..j + |tail|] == tail && Blank(dst, j + |tail|, 8)
    && dst[8..] == src[8..]
  }

  lemma HashWord(lfn: seq<Wchar>, num: nat)
    requires num < 0x1_0000
    ensures HashOf(lfn, num) < 0x1_0000
  {
  }

  method GenNumName(src: seq<byte>, lfn: array<Wchar>, ghost name: seq<Wchar>, num0: nat) returns (dst: seq<byte>)
    requires |src| == 11 && InBuffer(lfn[..], name) && name != [] && (forall k :: 0 <= k < |name| ==> name[k] != 0)
    requires num0 < 0x1_0000
    ensures |NumberTail(name, num0)| <= 6 && IsNumbered(dst, src, NumberTail(name, num0))
  {
    var num := num0;
    HashWord(name, num0);
    if num > 5 {
      num := HashName(lfn, name, num);
    }
    var i, ns := Itoa(num);
    dst := PutTail(src, ns[i..]);
  }

  // The hashing loop of gen_numname.
  method HashName(lfn: array<Wchar>, ghost name: seq<Wchar>, num0: nat) returns (num: nat)
    requires InBuffer(lfn[..], name) && name != [] && (forall k :: 0 <= k < |name| ==> name[k] != 0) && num0 < 0x1_0000
    ensures num == HashOf(name, num0)
  {
    assert forall k :: 0 <= k < |name| ==> lfn[..][..|name|][k] == lfn[k];
    num := RollHash(num0, lfn[0]);
    var k := 1;
    while lfn[k] != 0
      invariant 1 <= k <= |name| && HashOf(name[k..], num) == HashOf(name, num0)
      decreases |name| - k
    {
      assert name[k..][1..] == name[k + 1..];
      num := RollHash(num, lfn[k]);
      k := k + 1;
    }
  }

  // The digits, right-aligned in eight places, behind a tilde.
  method Itoa(num0: nat) returns (i: nat, ns: seq<byte>)
    requires num0 < 0x1_0000
    ensures i <= 8 == |ns| && ns[i..] == [TILDE] + Digits(num0)
  {
    ns := seq(8, _ => 0x20);
    var num, d := num0, 7;
    ghost var done: seq<byte> := [];
    while num >= 10
      invariant 0 <= d <= 7 && |ns| == 8 && ns[d + 1..] == done
      invariant Digits(num0) == Digits(num) + done
    {
      var c: byte := num % 10 + 0x30;
      assert Digits(num) + done == Digits(num / 10) + ([c] + done);
      ns := ns[d := c];
      done := [c] + done;
      num := num / 10;
      d := d - 1;
    }
    ns := ns[d := num + 0x30];
    d := d - 1;
    ns := ns[d := TILDE];
    i := d;
  }

  // The last loop of gen_numname.
  method PutTail(src: seq<byte>, tail: seq<byte>) returns (dst: seq<byte>)
    requires |src| == 11 && 1 <= |tail| <= 8
    ensures IsNumbered(dst, src, tail)
  {
    dst := src;
    var j := 0;
    while j < 8 - |tail| && dst[j] != SPACE
      invariant 0 <= j <= 8 - |tail| && Kept(src, 8 - |tail|, j) == Kept(src, 8 - |tail|, 0)
    {
      j := j + 1;
    }
    ghost var from := j;
    var t := 0;
    while j < 8
      invariant from <= j <= 8 && |dst| == 11 && t == (if j - from < |tail| then j - from else |tail|)
      invariant dst[..from] == src[..from] && dst[8..] == src[8..]
      invariant forall k :: from <= k < j ==> dst[k] == if k - from < |tail| then tail[k - from] else SPACE
    {
      if t < |tail| {
        dst := dst[j := tail[t]];
        t := t + 1;
      } else {
        dst := dst[j := SPACE];
      }
      j := j + 1;
    }
    TailPlaced(dst, from, tail);
  }

  lemma TailPlaced(dst: seq<byte>, from: nat, tail: seq<byte>)
    requires from + |tail| <= |dst| && forall k :: from <= k < from + |tail| ==> dst[k] == tail[k - from]
    ensures dst[from..from + |tail|] == tail
  {
    forall i | 0 <= i < |tail| ensures dst[from..from + |tail|][i] == tail[i] {
      assert dst[from..from + |tail|][i] == dst[from + i];
    }
  }

  // First characters that mark an entry as free, or as the end of the table.
  predicate FreeMark(c: byte) {
    c == 0 || c == 0xE5
  }

  // The first character of a short name: neither a mark nor a dot.
  predicate StartsName(c: byte) {
    !FreeMark(c) && c != DOT
  }

  // Numbering never makes a name look like a free entry.
  lemma NumberedInUse(dst: seq<byte>, src: seq<byte>, tail: seq<byte>)
    requires |src| == 11 && 1 <= |tail| <= 8 && tail[0] == TILDE && IsNumbered(dst, src, tail) && StartsName(src[0])
    ensures StartsName(dst[0])
  {
    var j := Kept(src, 8 - |tail|, 0);
    if j == 0 {
      assert dst[0] == dst[j..j + |tail|][0];
    } else {
      assert dst[0] == dst[..j][0] == src[..j][0];
    }
  }

  // No character of a short name is zero or a dot.
  ghost predicate NoDots(sfn: seq<byte>) {
    forall k :: 0 <= k < |sfn| ==> sfn[k] != 0 && sfn[k] != DOT
  }

  lemma {:induction false} FinishNoDots(name: seq<Wchar>, di: nat, st: Scan)
    requires ScanOk(name, st) && di <= |name| && NoDots(st.sfn)
    ensures NoDots(Finish(name, di, st).sfn)
    decreases 11 - st.ni, |name| - st.si
  {
    if !st.done && st.si < |name| {
      TurnNoDots(di, st.(si := st.si + 1), name[st.si]);
      FinishNoDots(name, di, Turn(di, st.(si := st.si + 1), name[st.si], ToOem(name[st.si])));
    }
  }

  lemma TurnNoDots(di: nat, st: Scan, w: Wchar)
    requires |st.sfn| == 11 && st.i <= st.ni && (st.ni == 8 || st.ni == 11) && NoDots(st.sfn)
    ensures NoDots(Turn(di, st, w, ToOem(w)).sfn)
  {
  }

  // A short name looks like an entry in use.
  lemma ShortInUse(name: seq<Wchar>)
    ensures StartsName(ShortOf(name).sfn[0])
  {
    FinishNoDots(name, LastDot(name, |name|), Start(name));
  }
}
