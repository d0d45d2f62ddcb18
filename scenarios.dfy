/** Clients of the buffer: what a caller can conclude from the contracts of
    Buffers.Buffer alone. */
module BufferScenarios {
  import opened Bits
  import opened Buffers

  /** A buffer built by copy keeps its bytes when the caller later
      overwrites its own array. */
  method CopyIgnoresLaterWrites(src: array<uint8>, pos: nat, x: uint8) returns (got: Option<uint8>)
    requires pos < src.Length && 8 * src.Length < UINT32_MODULUS
    modifies src
    ensures got == Some(old(src[pos]))
  {
    var b := new Buffer.FromData(src, src.Length, 0);
    src[pos] := x;
    got := b.GetUint8(8 * pos);
  }

  /** A buffer built on the caller's array (data_static != 0) sees the
      caller's later writes through its fetches. */
  method BorrowedSeesLaterWrites(src: array<uint8>, pos: nat, x: uint8) returns (got: Option<uint8>)
    requires pos < src.Length && 8 * src.Length < UINT32_MODULUS
    modifies src
    ensures got == Some(x)
  {
    var b := new Buffer.FromData(src, src.Length, 1);
    src[pos] := x;
    got := b.GetUint8(8 * pos);
  }

  /** Appending a and then c leaves the same bytes, size and cursor as
      appending their concatenation ac once. */
  method AppendTwiceIsAppendOnce(b1: Buffer, b2: Buffer, a: array<uint8>, c: array<uint8>, ac: array<uint8>)
    requires b1 != b2 && b1.Valid() && b2.Valid()
    requires b1.Contents() == b2.Contents()
    requires ac[..] == a[..] + c[..] && ac.Length < UINT32_MODULUS
    requires a.Length > 0 && c.Length > 0
    modifies b1, b2
    ensures b1.Valid() && b2.Valid()
    ensures b1.Contents() == b2.Contents() == old(b1.Contents()) + a[..] + c[..]
    ensures b1.sizeBytes == b2.sizeBytes
    ensures b1.cursor == b2.cursor == Some(0)
  {
    assert a[..a.Length] == a[..] && c[..c.Length] == c[..] && ac[..ac.Length] == ac[..];
    var rc := b1.AppendData(a, a.Length);
    rc := b1.AppendData(c, c.Length);
    rc := b2.AppendData(ac, ac.Length);
  }

  /** The bytes 0x12 0x34: a 16-bit read at offset 0 gives 0x3412 in
      little-endian host order, and the four bits from bit 4 on are the high
      nibble 0x1 of the first byte. */
  method TwoByteReads() returns (u16: Option<uint16>, nibble: uint32)
    ensures u16 == Some(0x3412)
    ensures nibble == 0x1
  {
    var src := new uint8[2];
    src[0], src[1] := 0x12, 0x34;
    var b := new Buffer.FromData(src, 2, 0);
    assert b.Contents() == [0x12, 0x34];
    u16 := b.GetUint16(0);
    assert [0x12, 0x34][0..2][1..] == [0x34];
    var rc;
    rc, nibble := b.FetchBits(4, 4, 0);
    HighNibble();
  }

  lemma HighNibble()
    ensures BitsValue([0x12, 0x34], 4, 4) == 0x1
  {
    var s: seq<uint8> := [0x12, 0x34];
    BitsValueStep(s, 4, 0);
    BitsValueStep(s, 4, 1);
    BitsValueStep(s, 4, 2);
    BitsValueStep(s, 4, 3);
    assert BitSeq(s, 4, 0) == [];
    assert StorageBit(s, 4) == 1 && StorageBit(s, 5) == 0;
    assert StorageBit(s, 6) == 0 && StorageBit(s, 7) == 0;
  }

  /** An empty buffer does not have 8 bits at offset 0. */
  method EmptyBufferUnderflow() returns (rc: Rc)
    ensures rc == RcFailure
  {
    var b := new Buffer.FromData(null, 0, 0);
    rc := b.HasEnoughData(0, 8);
  }

  /** Four bytes from a three-byte buffer: -1, and the destination keeps
      what it held. */
  method ShortByteRange() returns (rc: Rc, out: seq<uint8>)
    ensures rc == RcFailure
    ensures out == [7, 7, 7, 7]
  {
    var src := new uint8[3](_ => 1);
    var b := new Buffer.FromData(src, 3, 0);
    var dst := new uint8[4](_ => 7);
    rc := b.FetchNBytes(0, 4, dst);
    out := dst[..];
  }
}
