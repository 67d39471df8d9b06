/** The code page the file system is built with: 437, in both directions. */
module CodePages {
  import opened Bytes
  import opened LongNames

  // Code page 437 from 0x80 on, as Unicode.
  function CodePage(c: nat): Wchar
    requires c < 0x80
  {
    if c < 0x40 then LowerHalf(c) else UpperHalf(c - 0x40)
  }

  function LowerHalf(c: nat): Wchar
    requires c < 0x40
  {
    if c < 0x10 then [0x00C7, 0x00FC, 0x00E9, 0x00E2, 0x00E4, 0x00E0, 0x00E5, 0x00E7, 0x00EA, 0x00EB, 0x00E8, 0x00EF,
      0x00EE, 0x00EC, 0x00C4, 0x00C5][c]
    else if c < 0x20 then [0x00C9, 0x00E6, 0x00C6, 0x00F4, 0x00F6, 0x00F2, 0x00FB, 0x00F9, 0x00FF, 0x00D6, 0x00DC,
      0x00A2, 0x00A3, 0x00A5, 0x20A7, 0x0192][c - 0x10]
    else if c < 0x30 then [0x00E1, 0x00ED, 0x00F3, 0x00FA, 0x00F1, 0x00D1, 0x00AA, 0x00BA, 0x00BF, 0x2310, 0x00AC,
      0x00BD, 0x00BC, 0x00A1, 0x00AB, 0x00BB][c - 0x20]
    else [0x2591, 0x2592, 0x2593, 0x2502, 0x2524, 0x2561, 0x2562, 0x2556, 0x2555, 0x2563, 0x2551, 0x2557, 0x255D,
      0x255C, 0x255B, 0x2510][c - 0x30]
  }

  function UpperHalf(c: nat): Wchar
    requires c < 0x40
  {
    if c < 0x10 then [0x2514, 0x2534, 0x252C, 0x251C, 0x2500, 0x253C, 0x255E, 0x255F, 0x255A, 0x2554, 0x2569, 0x2566,
      0x2560, 0x2550, 0x256C, 0x2567][c]
    else if c < 0x20 then [0x2568, 0x2564, 0x2565, 0x2559, 0x2558, 0x2552, 0x2553, 0x256B, 0x256A, 0x2518, 0x250C,
      0x2588, 0x2584, 0x258C, 0x2590, 0x2580][c - 0x10]
    else if c < 0x30 then [0x03B1, 0x00DF, 0x0393, 0x03C0, 0x03A3, 0x03C3, 0x00B5, 0x03C4, 0x03A6, 0x0398, 0x03A9,
      0x03B4, 0x221E, 0x03C6, 0x03B5, 0x2229][c - 0x20]
    else [0x2261, 0x00B1, 0x2265, 0x2264, 0x2320, 0x2321, 0x00F7, 0x2248, 0x00B0, 0x2219, 0x00B7, 0x221A, 0x207F,
      0x00B2, 0x25A0, 0x00A0][c - 0x30]
  }

  // The place of w in the table from c on, 0x80 if it is not there.
  function TableIndex(w: Wchar, c: nat): (r: nat)
    requires c <= 0x80
    ensures c <= r <= 0x80
    decreases 0x80 - c
  {
    if c == 0x80 || CodePage(c) == w then c else TableIndex(w, c + 1)
  }

  // ff_convert(w, 0): the code of w in the code page, 0 if it has none.
  function ToOem(w: Wchar): byte {
    if w < 0x80 then w else (TableIndex(w, 0) + 0x80) % 0x100
  }

  // ff_convert(c, 1).
  function ToUnicode(c: byte): Wchar {
    if c < 0x80 then c else CodePage(c - 0x80)
  }

  // The code page maps no character to the filler, and none that a path may hold to a control code.
  lemma CodePagePlain(c: byte)
    ensures ToUnicode(c) != 0xFFFF && (c < 0x80 <==> ToUnicode(c) < 0x80) && (0x20 <= c ==> 0x20 <= ToUnicode(c))
  {
    if c >= 0x80 {
      var k := if c < 0xC0 then c - 0x80 else c - 0xC0;
      PlainLower(k);
      PlainUpper(k);
    }
  }

  lemma PlainLower(k: nat)
    requires k < 0x40
    ensures PlainCode(LowerHalf(k))
  {
  }

  lemma PlainUpper(k: nat)
    requires k < 0x40
    ensures PlainCode(UpperHalf(k))
  {
  }

  predicate PlainCode(w: Wchar) {
    0x80 <= w < 0xFFFF
  }

  // The table read the other way round, in the order of the characters; 0x80 for one it does not have.
  function Place(w: Wchar): nat {
    if w < 0x00E6 then Place0(w)
    else if w < 0x03C4 then Place1(w)
    else if w < 0x2556 then Place2(w)
    else Place3(w)
  }

  function Place0(w: Wchar): nat {
    if w == 0x00A0 then 0x7F else if w == 0x00A1 then 0x2D else if w == 0x00A2 then 0x1B
    else if w == 0x00A3 then 0x1C else if w == 0x00A5 then 0x1D else if w == 0x00AA then 0x26
    else if w == 0x00AB then 0x2E else if w == 0x00AC then 0x2A else if w == 0x00B0 then 0x78
    else if w == 0x00B1 then 0x71 else if w == 0x00B2 then 0x7D else if w == 0x00B5 then 0x66
    else if w == 0x00B7 then 0x7A else if w == 0x00BA then 0x27 else if w == 0x00BB then 0x2F
    else if w == 0x00BC then 0x2C else if w == 0x00BD then 0x2B else if w == 0x00BF then 0x28
    else if w == 0x00C4 then 0x0E else if w == 0x00C5 then 0x0F else if w == 0x00C6 then 0x12
    else if w == 0x00C7 then 0x00 else if w == 0x00C9 then 0x10 else if w == 0x00D1 then 0x25
    else if w == 0x00D6 then 0x19 else if w == 0x00DC then 0x1A else if w == 0x00DF then 0x61
    else if w == 0x00E0 then 0x05 else if w == 0x00E1 then 0x20 else if w == 0x00E2 then 0x03
    else if w == 0x00E4 then 0x04 else if w == 0x00E5 then 0x06
    else 0x80
  }

  function Place1(w: Wchar): nat {
    if w == 0x00E6 then 0x11 else if w == 0x00E7 then 0x07 else if w == 0x00E8 then 0x0A
    else if w == 0x00E9 then 0x02 else if w == 0x00EA then 0x08 else if w == 0x00EB then 0x09
    else if w == 0x00EC then 0x0D else if w == 0x00ED then 0x21 else if w == 0x00EE then 0x0C
    else if w == 0x00EF then 0x0B else if w == 0x00F1 then 0x24 else if w == 0x00F2 then 0x15
    else if w == 0x00F3 then 0x22 else if w == 0x00F4 then 0x13 else if w == 0x00F6 then 0x14
    else if w == 0x00F7 then 0x76 else if w == 0x00F9 then 0x17 else if w == 0x00FA then 0x23
    else if w == 0x00FB then 0x16 else if w == 0x00FC then 0x01 else if w == 0x00FF then 0x18
    else if w == 0x0192 then 0x1F else if w == 0x0393 then 0x62 else if w == 0x0398 then 0x69
    else if w == 0x03A3 then 0x64 else if w == 0x03A6 then 0x68 else if w == 0x03A9 then 0x6A
    else if w == 0x03B1 then 0x60 else if w == 0x03B4 then 0x6B else if w == 0x03B5 then 0x6E
    else if w == 0x03C0 then 0x63 else if w == 0x03C3 then 0x65
    else 0x80
  }

  function Place2(w: Wchar): nat {
    if w == 0x03C4 then 0x67 else if w == 0x03C6 then 0x6D else if w == 0x207F then 0x7C
    else if w == 0x20A7 then 0x1E else if w == 0x2219 then 0x79 else if w == 0x221A then 0x7B
    else if w == 0x221E then 0x6C else if w == 0x2229 then 0x6F else if w == 0x2248 then 0x77
    else if w == 0x2261 then 0x70 else if w == 0x2264 then 0x73 else if w == 0x2265 then 0x72
    else if w == 0x2310 then 0x29 else if w == 0x2320 then 0x74 else if w == 0x2321 then 0x75
    else if w == 0x2500 then 0x44 else if w == 0x2502 then 0x33 else if w == 0x250C then 0x5A
    else if w == 0x2510 then 0x3F else if w == 0x2514 then 0x40 else if w == 0x2518 then 0x59
    else if w == 0x251C then 0x43 else if w == 0x2524 then 0x34 else if w == 0x252C then 0x42
    else if w == 0x2534 then 0x41 else if w == 0x253C then 0x45 else if w == 0x2550 then 0x4D
    else if w == 0x2551 then 0x3A else if w == 0x2552 then 0x55 else if w == 0x2553 then 0x56
    else if w == 0x2554 then 0x49 else if w == 0x2555 then 0x38
    else 0x80
  }

  function Place3(w: Wchar): nat {
    if w == 0x2556 then 0x37 else if w == 0x2557 then 0x3B else if w == 0x2558 then 0x54
    else if w == 0x2559 then 0x53 else if w == 0x255A then 0x48 else if w == 0x255B then 0x3E
    else if w == 0x255C then 0x3D else if w == 0x255D then 0x3C else if w == 0x255E then 0x46
    else if w == 0x255F then 0x47 else if w == 0x2560 then 0x4C else if w == 0x2561 then 0x35
    else if w == 0x2562 then 0x36 else if w == 0x2563 then 0x39 else if w == 0x2564 then 0x51
    else if w == 0x2565 then 0x52 else if w == 0x2566 then 0x4B else if w == 0x2567 then 0x4F
    else if w == 0x2568 then 0x50 else if w == 0x2569 then 0x4A else if w == 0x256A then 0x58
    else if w == 0x256B then 0x57 else if w == 0x256C then 0x4E else if w == 0x2580 then 0x5F
    else if w == 0x2584 then 0x5C else if w == 0x2588 then 0x5B else if w == 0x258C then 0x5D
    else if w == 0x2590 then 0x5E else if w == 0x2591 then 0x30 else if w == 0x2592 then 0x31
    else if w == 0x2593 then 0x32 else if w == 0x25A0 then 0x7E
    else 0x80
  }

  lemma PlaceLower0(k: nat)
    requires k < 0x20
    ensures Place(LowerHalf(k)) == k
  {
  }

  lemma PlaceLower1(k: nat)
    requires 0x20 <= k < 0x40
    ensures Place(LowerHalf(k)) == k
  {
  }

  lemma PlaceUpper0(k: nat)
    requires k < 0x20
    ensures Place(UpperHalf(k)) == 0x40 + k
  {
  }

  lemma PlaceUpper1(k: nat)
    requires 0x20 <= k < 0x40
    ensures Place(UpperHalf(k)) == 0x40 + k
  {
  }

  // No two codes stand for one character.
  lemma PlaceOf(c: nat)
    requires c < 0x80
    ensures Place(CodePage(c)) == c
  {
    hide Place, LowerHalf, UpperHalf;
    if c < 0x20 {
      PlaceLower0(c);
    } else if c < 0x40 {
      PlaceLower1(c);
    } else if c < 0x60 {
      PlaceUpper0(c - 0x40);
    } else {
      PlaceUpper1(c - 0x40);
    }
  }

  lemma {:induction false} IndexOf(c: nat, k: nat)
    requires k <= c < 0x80
    ensures TableIndex(CodePage(c), k) == c
    decreases c - k
  {
    hide CodePage, Place;
    PlaceOf(k);
    PlaceOf(c);
    if k == c {
    } else {
      IndexOf(c, k + 1);
    }
  }

  /** ff_convert there and back: every code is that of its character. */
  lemma OemAgain(c: byte)
    ensures ToOem(ToUnicode(c)) == c
  {
    hide CodePage, TableIndex;
    if c < 0x80 {
    } else {
      CodePagePlain(c);
      IndexOf(c - 0x80, 0);
    }
  }
}
