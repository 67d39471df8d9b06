/** Bytes, sectors and the little-endian LD_/ST_ access macros of ff.h. */
module Bytes {

  type byte = b: int | 0 <= b < 256

  const SECTOR_SIZE := 512

  type Sector = s: seq<byte> | |s| == SECTOR_SIZE witness seq(SECTOR_SIZE, _ => 0)

  function Word(lo: byte, hi: byte): (w: nat)
    ensures w < 0x1_0000
  {
    lo as int + 0x100 * (hi as int)
  }

  function LdWord(s: seq<byte>, o: nat): (w: nat)
    requires o + 2 <= |s|
    ensures w < 0x1_0000
  {
    Word(s[o], s[o + 1])
  }

  function LdDword(s: seq<byte>, o: nat): (w: nat)
    requires o + 4 <= |s|
    ensures w < 0x1_0000_0000
  {
    Word(s[o], s[o + 1]) + 0x1_0000 * Word(s[o + 2], s[o + 3])
  }

  // s with data copied over it from offset o on.
  function Patch(s: seq<byte>, o: nat, data: seq<byte>): (r: seq<byte>)
    requires o + |data| <= |s|
    ensures |r| == |s|
    ensures forall i :: 0 <= i < |r| ==> r[i] == if o <= i < o + |data| then data[i - o] else s[i]
  {
    s[..o] + data + s[o + |data|..]
  }

  function WordBytes(v: nat): (r: seq<byte>)
    ensures |r| == 2
  {
    [v % 0x100, v / 0x100 % 0x100]
  }

  function DwordBytes(v: nat): (r: seq<byte>)
    ensures |r| == 4
  {
    [v % 0x100, v / 0x100 % 0x100, v / 0x1_0000 % 0x100, v / 0x100_0000 % 0x100]
  }

  function StWord(s: seq<byte>, o: nat, v: nat): (r: seq<byte>)
    requires o + 2 <= |s|
    ensures |r| == |s|
  {
    Patch(s, o, WordBytes(v))
  }

  function StDword(s: seq<byte>, o: nat, v: nat): (r: seq<byte>)
    requires o + 4 <= |s|
    ensures |r| == |s|
  {
    Patch(s, o, DwordBytes(v))
  }

  // What a store leaves for a later load: the value cut to the stored width.
  lemma LoadAfterStore(s: seq<byte>, o: nat, v: nat)
    ensures o + 2 <= |s| ==> LdWord(StWord(s, o, v), o) == v % 0x1_0000
    ensures o + 4 <= |s| ==> LdDword(StDword(s, o, v), o) == v % 0x1_0000_0000
  {
    SplitDword(v);
  }

  // A number is put back together from the four bytes cut out of it.
  lemma SplitDword(v: nat)
    ensures v % 0x100 + 0x100 * (v / 0x100 % 0x100) == v % 0x1_0000
    ensures Word(v % 0x100, v / 0x100 % 0x100) + 0x1_0000 * Word(v / 0x1_0000 % 0x100, v / 0x100_0000 % 0x100)
            == v % 0x1_0000_0000
  {
    var h := v / 0x1_0000;
    SplitWord(v);
    SplitWord(h);
    Div3(v, h);
    Mod4(v, h);
  }

  lemma SplitWord(v: nat)
    ensures v / 0x100 / 0x100 == v / 0x1_0000
    ensures v % 0x100 + 0x100 * (v / 0x100 % 0x100) == v % 0x1_0000
  {
    var q1 := v / 0x100;
    var q2 := q1 / 0x100;
    assert v == 0x1_0000 * q2 + (v % 0x100 + 0x100 * (q1 % 0x100));
  }

  lemma Div3(v: nat, h: nat)
    requires h == v / 0x1_0000
    ensures v / 0x100_0000 == h / 0x100
  {
    var q := h / 0x100;
    assert v == 0x100_0000 * q + (0x1_0000 * (h % 0x100) + v % 0x1_0000);
  }

  lemma Mod4(v: nat, h: nat)
    requires h == v / 0x1_0000
    ensures v % 0x1_0000 + 0x1_0000 * (h % 0x1_0000) == v % 0x1_0000_0000
  {
    var q := h / 0x1_0000;
    assert v == 0x1_0000_0000 * q + (0x1_0000 * (h % 0x1_0000) + v % 0x1_0000);
  }

  lemma WordAgain(v: nat)
    ensures Word(WordBytes(v)[0], WordBytes(v)[1]) == v % 0x1_0000
  {
    SplitWord(v);
  }

  lemma DwordAgain(v: nat)
    requires v < 0x1_0000_0000
    ensures Dword(DwordBytes(v)) == v
  {
    SplitDword(v);
    CutNothing(v);
  }

  function Dword(b: seq<byte>): nat
    requires |b| == 4
  {
    Word(b[0], b[1]) + 0x1_0000 * Word(b[2], b[3])
  }

  lemma CutNothing(v: nat)
    requires v < 0x1_0000_0000
    ensures v % 0x1_0000_0000 == v
  {
  }

  lemma CutNothing16(v: nat)
    requires v < 0x1_0000
    ensures v % 0x1_0000 == v
  {
  }
}
