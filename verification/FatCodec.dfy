/** The FAT entry codec: how a cluster's link is packed into the bytes of the table.
    FAT12 entries are 12 bits wide and share bytes, so one entry may straddle two sectors. */
module FatCodec {
  import opened Bytes

  datatype FatType = Fat12 | Fat16 | Fat32

  // The part of v that an entry holds: 12, 16 or 28 bits.
  function Cut(ty: FatType, v: nat): (r: nat) {
    match ty
    case Fat12 => v % 0x1000
    case Fat16 => v % 0x1_0000
    case Fat32 => v % 0x1000_0000
  }

  // Does a table of len bytes hold the whole entry of cluster c?
  predicate Covers(ty: FatType, len: nat, c: nat) {
    match ty
    case Fat12 => c * 3 / 2 + 1 < len
    case Fat16 => c * 2 + 1 < len
    case Fat32 => c * 4 + 3 < len
  }

  function Entry12(odd: bool, lo: byte, hi: byte): (v: nat)
    ensures v < 0x1000
  {
    var wc := Word(lo, hi);
    if odd then wc / 0x10 else wc % 0x1000
  }

  function Decode(ty: FatType, b: seq<byte>, c: nat): (v: nat)
    requires Covers(ty, |b|, c)
  {
    match ty
    case Fat12 =>
      var bc := c * 3 / 2;
      Entry12(c % 2 == 1, b[bc], b[bc + 1])
    case Fat16 => LdWord(b, c * 2)
    case Fat32 => LdDword(b, c * 4) % 0x1000_0000
  }

  // The two read-modify-write steps of the FAT12 case, on the low and on the high byte.
  function Low12(odd: bool, p: byte, v: nat): byte {
    if odd then p % 0x10 + v % 0x10 * 0x10 else v % 0x100
  }

  function High12(odd: bool, p: byte, v: nat): byte {
    if odd then v / 0x10 % 0x100 else p / 0x10 * 0x10 + v / 0x100 % 0x10
  }

  function Update12(high: bool, odd: bool, p: byte, v: nat): byte {
    if high then High12(odd, p, v) else Low12(odd, p, v)
  }

  function Encode(ty: FatType, b: seq<byte>, c: nat, v: nat): (r: seq<byte>)
    requires Covers(ty, |b|, c)
    ensures |r| == |b|
  {
    match ty
    case Fat12 =>
      var bc := c * 3 / 2;
      var b' := b[bc := Low12(c % 2 == 1, b[bc], v)];
      b'[bc + 1 := High12(c % 2 == 1, b'[bc + 1], v)]
    case Fat16 => StWord(b, c * 2, v)
    case Fat32 => StDword(b, c * 4, v)
  }

  // put_cluster writes a FAT12 entry one byte at a time.
  lemma Encode12InTwoSteps(b: seq<byte>, c: nat, v: nat)
    requires Covers(Fat12, |b|, c)
    ensures var bc := c * 3 / 2;
            var b' := Patch(b, bc, [Low12(c % 2 == 1, b[bc], v)]);
            Encode(Fat12, b, c, v) == Patch(b', bc + 1, [High12(c % 2 == 1, b'[bc + 1], v)])
  {
  }

  lemma {:induction false} DecodeAfterEncode(ty: FatType, b: seq<byte>, c: nat, v: nat)
    requires Covers(ty, |b|, c)
    ensures Decode(ty, Encode(ty, b, c, v), c) == Cut(ty, v)
  {
    match ty
    case Fat12 => DecodeAfterEncode12(b, c, v);
    case Fat16 => LoadAfterStore(b, c * 2, v);
    case Fat32 =>
      LoadAfterStore(b, c * 4, v);
      CutTwice(v);
  }

  lemma DecodeAfterEncode12(b: seq<byte>, c: nat, v: nat)
    requires Covers(Fat12, |b|, c)
    ensures Decode(Fat12, Encode(Fat12, b, c, v), c) == v % 0x1000
  {
    if c % 2 == 1 {
      Odd12(b[c * 3 / 2], v);
    } else {
      Even12(b[c * 3 / 2 + 1], v);
    }
  }

  lemma CutTwice(v: nat)
    ensures v % 0x1_0000_0000 % 0x1000_0000 == v % 0x1000_0000
  {
    var r := v % 0x1_0000_0000;
    assert v == 0x1000_0000 * (0x10 * (v / 0x1_0000_0000) + r / 0x1000_0000) + r % 0x1000_0000;
  }

  lemma Odd12(p: byte, v: nat)
    ensures Word(Low12(true, p, v), High12(true, p, v)) / 0x10 == v % 0x1000
  {
    var q1 := v / 0x10;
    var q2 := q1 / 0x100;
    assert v == 0x1000 * q2 + (v % 0x10 + 0x10 * (q1 % 0x100));
    assert v % 0x1000 == v % 0x10 + 0x10 * (q1 % 0x100);
    assert Word(Low12(true, p, v), High12(true, p, v)) == 0x10 * (v % 0x10 + 0x10 * (q1 % 0x100)) + p % 0x10;
  }

  lemma Even12(p: byte, v: nat)
    ensures Word(v % 0x100, High12(false, p, v)) % 0x1000 == v % 0x1000
  {
    var q1 := v / 0x100;
    var r := v % 0x100 + 0x100 * (q1 % 0x10);
    assert v == 0x1000 * (q1 / 0x10) + r;
    Cut12(q1 / 0x10, r);
    Cut12(p / 0x10, r);
  }

  lemma Cut12(q: nat, r: nat)
    requires r < 0x1000
    ensures (0x1000 * q + r) % 0x1000 == r
  {
  }

  // Writing one entry leaves every other cluster's entry as it was.
  lemma {:induction false} DecodeOtherAfterEncode(ty: FatType, b: seq<byte>, c: nat, v: nat, k: nat)
    requires Covers(ty, |b|, c) && Covers(ty, |b|, k) && k != c
    ensures Decode(ty, Encode(ty, b, c, v), k) == Decode(ty, b, k)
  {
    match ty
    case Fat12 => Neighbour12(b, c, v, k);
    case Fat16 =>
      assert k * 2 + 1 < c * 2 || c * 2 + 1 < k * 2;
    case Fat32 =>
      assert k * 4 + 3 < c * 4 || c * 4 + 3 < k * 4;
  }

  lemma IndexStep(c: nat)
    ensures c * 3 / 2 == 3 * (c / 2) + c % 2
  {
    assert c * 3 == 2 * (3 * (c / 2) + c % 2) + c % 2;
  }

  // Only the entry next door can share a byte: an even entry's high byte is the low byte of c + 1.
  lemma Neighbour12(b: seq<byte>, c: nat, v: nat, k: nat)
    requires Covers(Fat12, |b|, c) && Covers(Fat12, |b|, k) && k != c
    ensures Decode(Fat12, Encode(Fat12, b, c, v), k) == Decode(Fat12, b, k)
  {
    IndexStep(c);
    IndexStep(k);
    var bc, bk := c * 3 / 2, k * 3 / 2;
    if c / 2 != k / 2 {
      assert bk + 1 < bc || bc + 1 < bk;
    } else if c % 2 == 1 {
      assert bk + 1 == bc;
      SharedLow(b[bk], b[bc], v);
    } else {
      assert bk == bc + 1;
      SharedHigh(b[bk], b[bk + 1], v);
    }
  }

  lemma SharedLow(lo: byte, p: byte, v: nat)
    ensures Entry12(false, lo, Low12(true, p, v)) == Entry12(false, lo, p)
  {
    var r := lo + 0x100 * (p % 0x10);
    Cut12(p / 0x10, r);
    Cut12(v % 0x10, r);
  }

  lemma SharedHigh(p: byte, hi: byte, v: nat)
    ensures Entry12(true, High12(false, p, v), hi) == Entry12(true, p, hi)
  {
    var q := p / 0x10 + 0x10 * hi;
    Drop4(q, p % 0x10);
    Drop4(q, v / 0x100 % 0x10);
  }

  lemma Drop4(q: nat, r: nat)
    requires r < 0x10
    ensures (0x10 * q + r) / 0x10 == q
  {
  }
}
