/** Reading a range of a partition's plaintext from its encrypted clusters. */
module DecryptRead {
  import opened Bytes

  const CLUSTER := 0x8000
  const CLUSTER_DATA := 0x7C00

  // A cluster as it is on the disc, header and data encrypted, and the data it holds.
  type Raw = s: seq<byte> | |s| == CLUSTER witness seq(CLUSTER, _ => 0)
  type Data = s: seq<byte> | |s| == CLUSTER_DATA witness seq(CLUSTER_DATA, _ => 0)

  /** Byte i of the partition's plaintext: the data of its clusters, one behind the other. */
  function PlainByte(disc: nat -> Raw, decrypt: Raw -> Data, part: nat, i: nat): byte {
    decrypt(disc(part + i / CLUSTER_DATA * CLUSTER))[i % CLUSTER_DATA]
  }

  // (u32)(FileOffset >> 10) / 31.
  function ClusterOf(fileOffset: nat): nat {
    fileOffset / 0x400 % 0x1_0000_0000 / 31
  }

  /** The division without 64-bit arithmetic is right exactly for offsets below 4 TB. */
  lemma ClusterOfRight(fileOffset: nat)
    ensures ClusterOf(fileOffset) == fileOffset / CLUSTER_DATA <==> fileOffset < 0x400_0000_0000
  {
    var k := fileOffset / 0x400;
    TwoSteps(fileOffset, k, k / 31);
    if fileOffset >= 0x400_0000_0000 {
      var high, low := k / 0x1_0000_0000, k % 0x1_0000_0000;
      assert k == 0x1_0000_0000 * high + low && 1 <= high;
      Smaller(k, low);
    }
  }

  // Dividing by 0x400 and then by 31 is dividing by 0x7C00.
  lemma TwoSteps(x: nat, k: nat, q: nat)
    requires k == x / 0x400 && q == k / 31
    ensures x / CLUSTER_DATA == q
  {
    assert x == CLUSTER_DATA * q + (0x400 * (k % 31) + x % 0x400);
  }

  lemma Smaller(k: nat, low: nat)
    requires low + 0x1_0000_0000 <= k
    ensures low / 31 < k / 31
  {
  }

  // Where byte s of cluster c's data lies in the plaintext.
  lemma PlainAt(disc: nat -> Raw, decrypt: Raw -> Data, part: nat, c: nat, s: nat)
    requires s < CLUSTER_DATA
    ensures PlainByte(disc, decrypt, part, c * CLUSTER_DATA + s) == decrypt(disc(part + c * CLUSTER))[s]
  {
    assert (c * CLUSTER_DATA + s) / CLUSTER_DATA == c;
  }

  /** DecryptRead: the buffer receives the bytes of the plaintext from fileOffset on, and no others are touched. */
  method Read(disc: nat -> Raw, decrypt: Raw -> Data, part: nat, fileOffset: nat, size0: nat, buffer: array<byte>)
    requires fileOffset < 0x400_0000_0000 && size0 < 0x1_0000_0000 && size0 <= buffer.Length
    modifies buffer
    ensures forall i :: 0 <= i < buffer.Length ==>
              buffer[i] == if i < size0 then PlainByte(disc, decrypt, part, fileOffset + i) else old(buffer[i])
  {
    ClusterOfRight(fileOffset);
    var div := ClusterOf(fileOffset);
    var roffset, soffset := div * CLUSTER, fileOffset - div * CLUSTER_DATA;
    var size, readSize, read: nat := size0, CLUSTER_DATA, 0;
    if soffset + size > readSize {
      readSize := readSize - soffset;
    }
    ghost var c := div;
    while size > 0
      invariant 0 <= size && read + size == size0 && 0 <= soffset < CLUSTER_DATA && roffset == c * CLUSTER
      invariant size > 0 ==> fileOffset + read == c * CLUSTER_DATA + soffset
      invariant size > 0 ==> readSize == if soffset + size > CLUSTER_DATA then CLUSTER_DATA - soffset else CLUSTER_DATA
      invariant forall i :: 0 <= i < buffer.Length ==>
                  buffer[i] == if i < read then PlainByte(disc, decrypt, part, fileOffset + i) else old(buffer[i])
    {
      if readSize > size {
        readSize := size;
      }
      var encdata := disc(part + roffset);
      roffset := roffset + CLUSTER;
      var decdata := decrypt(encdata);
      forall i | 0 <= i < readSize {
        buffer[read + i] := decdata[soffset + i];
      }
      forall i | read <= i < read + readSize ensures buffer[i] == PlainByte(disc, decrypt, part, fileOffset + i) {
        PlainAt(disc, decrypt, part, c, soffset + (i - read));
        assert buffer[read + (i - read)] == decdata[soffset + (i - read)];
      }
      read := read + readSize;
      size := size - readSize;
      if soffset != 0 {
        readSize := CLUSTER_DATA;
        soffset := 0;
      }
      c := c + 1;
    }
  }
}
