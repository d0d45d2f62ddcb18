/** Bit- and byte-level arithmetic behind the buffer: C's unsigned shifts and
    masks on non-negative integers, bit strings packed least-significant bit
    first, and little-endian decoding of byte strings. */
module Bits {

  /** C `uint8_t`. */
  type uint8 = x: int | 0 <= x < 0x100
  /** C `uint16_t`. */
  type uint16 = x: int | 0 <= x < 0x1_0000
  /** C `uint32_t`. */
  type uint32 = x: int | 0 <= x < 0x1_0000_0000
  /** C `uint64_t`. */
  type uint64 = x: int | 0 <= x < 0x1_0000_0000_0000_0000
  /** A single bit. */
  type bit = b: int | 0 <= b <= 1

  /** 2^32, the modulus of `uint32_t` arithmetic. */
  const UINT32_MODULUS: int := 0x1_0000_0000

  /** `1 << k`. */
  function Pow2(k: nat): (p: nat)
    ensures p >= 1
  {
    if k == 0 then 1 else 2 * Pow2(k - 1)
  }

  lemma {:induction false} Pow2Monotone(a: nat, b: nat)
    requires a <= b
    ensures Pow2(a) <= Pow2(b)
    decreases b
  {
    if a < b {
      Pow2Monotone(a, b - 1);
    }
  }

  lemma {:induction false} Pow2Add(a: nat, b: nat)
    ensures Pow2(a + b) == Pow2(a) * Pow2(b)
    decreases a
  {
    if a > 0 {
      Pow2Add(a - 1, b);
      assert Pow2(a + b) == 2 * Pow2(a - 1 + b);
      assert 2 * (Pow2(a - 1) * Pow2(b)) == (2 * Pow2(a - 1)) * Pow2(b);
    }
  }

  /** The widths of C's unsigned integer types. */
  lemma Pow2Widths()
    ensures Pow2(8) == 0x100
    ensures Pow2(16) == 0x1_0000
    ensures Pow2(32) == 0x1_0000_0000
    ensures Pow2(64) == 0x1_0000_0000_0000_0000
  {
    assert Pow2(8) == 0x100;
    Pow2Add(8, 8);
    Pow2Add(16, 16);
    Pow2Add(32, 32);
  }

  /** `x >> k` on an unsigned value: k halvings. */
  function Shr(x: nat, k: nat): (r: nat)
  {
    if k == 0 then x else Shr(x / 2, k - 1)
  }

  /** `(x >> k) & 1`: bit k of x, counting from the least-significant bit. */
  function Bit(x: nat, k: nat): (r: bit)
  {
    Shr(x, k) % 2
  }

  /** `pos >> 3` on an unsigned bit position: the byte that holds bit pos. */
  function ByteIndex(pos: nat): (r: nat)
  {
    pos / 8
  }

  /** The number whose bit i is bits[i]: bits[0] is the least significant. */
  function FromBitsLE(bits: seq<bit>): (r: nat)
  {
    if bits == [] then 0 else bits[0] + 2 * FromBitsLE(bits[1..])
  }

  /** The unsigned integer that bytes encode in little-endian order. */
  function LittleEndian(bytes: seq<uint8>): (r: nat)
  {
    if bytes == [] then 0 else bytes[0] + 0x100 * LittleEndian(bytes[1..])
  }

  /** Bit pos of a byte string s: bit pos % 8 of byte pos / 8. */
  function StorageBit(s: seq<uint8>, pos: nat): (r: bit)
    requires pos < 8 * |s|
  {
    Bit(s[ByteIndex(pos)], pos % 8)
  }

  /** The n bits of s from bit offset on, in order. */
  function BitSeq(s: seq<uint8>, offset: nat, n: nat): (bits: seq<bit>)
    requires offset + n <= 8 * |s|
    ensures |bits| == n
    ensures forall i :: 0 <= i < n ==> bits[i] == StorageBit(s, offset + i)
  {
    seq<bit>(n, i requires 0 <= i < n => StorageBit(s, offset + i))
  }

  /** The value of the n bits of s from bit offset on, the first of them
      least significant. */
  function BitsValue(s: seq<uint8>, offset: nat, n: nat): (r: nat)
    requires offset + n <= 8 * |s|
  {
    FromBitsLE(BitSeq(s, offset, n))
  }

  /** The first k bits of x. */
  function BitsOf(x: nat, k: nat): (bits: seq<bit>)
    ensures |bits| == k
    ensures forall i :: 0 <= i < k ==> bits[i] == Bit(x, i)
  {
    seq<bit>(k, i requires 0 <= i < k => Bit(x, i))
  }

  lemma {:induction false} ShrZero(k: nat)
    ensures Shr(0, k) == 0
  {
    if k > 0 {
      ShrZero(k - 1);
    }
  }

  /** Bit i of a packed bit string is its i-th bit, and zero at or above its length. */
  lemma {:induction false} FromBitsBitAt(bits: seq<bit>, i: nat)
    ensures Bit(FromBitsLE(bits), i) == if i < |bits| then bits[i] else 0
  {
    if bits == [] {
      ShrZero(i);
    } else if i > 0 {
      var x := FromBitsLE(bits);
      assert x / 2 == FromBitsLE(bits[1..]);
      assert Bit(x, i) == Bit(x / 2, i - 1);
      FromBitsBitAt(bits[1..], i - 1);
    }
  }

  /** A packed string of k bits is below 2^k. */
  lemma {:induction false} FromBitsBound(bits: seq<bit>)
    ensures FromBitsLE(bits) < Pow2(|bits|)
  {
    if bits != [] {
      FromBitsBound(bits[1..]);
    }
  }

  /** Packing a concatenation: the second part lands above the first. */
  lemma {:induction false} FromBitsConcat(x: seq<bit>, y: seq<bit>)
    ensures FromBitsLE(x + y) == FromBitsLE(x) + Pow2(|x|) * FromBitsLE(y)
  {
    if x == [] {
      assert x + y == y;
    } else {
      assert (x + y)[1..] == x[1..] + y;
      FromBitsConcat(x[1..], y);
      var r, p, f := FromBitsLE(x[1..]), Pow2(|x| - 1), FromBitsLE(y);
      assert FromBitsLE(x + y) == x[0] + 2 * (r + p * f);
      DoubleShift(r, p, f);
      assert Pow2(|x|) == 2 * p;
    }
  }

  lemma DoubleShift(r: int, p: int, f: int)
    ensures 2 * (r + p * f) == 2 * r + (2 * p) * f
  {
  }

  /** A value below 2^k is recovered by packing its first k bits. */
  lemma {:induction false} FromBitsOfValue(x: nat, k: nat)
    requires x < Pow2(k)
    ensures FromBitsLE(BitsOf(x, k)) == x
  {
    if k > 0 {
      var bits := BitsOf(x, k);
      forall i | 0 <= i < k - 1
        ensures bits[1..][i] == BitsOf(x / 2, k - 1)[i]
      {
        assert Bit(x, i + 1) == Bit(x / 2, i);
      }
      assert bits[1..] == BitsOf(x / 2, k - 1);
      FromBitsOfValue(x / 2, k - 1);
    }
  }

  /** Bit i of the value of n storage bits is storage bit offset + i when
      i < n, and zero otherwise. */
  lemma BitsValueBitAt(s: seq<uint8>, offset: nat, n: nat, i: nat)
    requires offset + n <= 8 * |s|
    ensures Bit(BitsValue(s, offset, n), i) == if i < n then StorageBit(s, offset + i) else 0
  {
    FromBitsBitAt(BitSeq(s, offset, n), i);
  }

  /** The value of n storage bits is below 2^n. */
  lemma BitsValueBound(s: seq<uint8>, offset: nat, n: nat)
    requires offset + n <= 8 * |s|
    ensures BitsValue(s, offset, n) < Pow2(n)
  {
    FromBitsBound(BitSeq(s, offset, n));
  }

  /** Reading a + b bits is reading a bits, then b more bits placed above them. */
  lemma BitsValueSplit(s: seq<uint8>, offset: nat, a: nat, b: nat)
    requires offset + a + b <= 8 * |s|
    ensures BitsValue(s, offset, a + b)
         == BitsValue(s, offset, a) + Pow2(a) * BitsValue(s, offset + a, b)
  {
    assert BitSeq(s, offset, a + b) == BitSeq(s, offset, a) + BitSeq(s, offset + a, b);
    FromBitsConcat(BitSeq(s, offset, a), BitSeq(s, offset + a, b));
  }

  /** One more bit: the value of n + 1 bits adds storage bit offset + n,
      read on its own, at position n. */
  lemma BitsValueStep(s: seq<uint8>, offset: nat, n: nat)
    requires offset + n + 1 <= 8 * |s|
    ensures BitsValue(s, offset, n + 1)
         == BitsValue(s, offset, n) + StorageBit(s, offset + n) * Pow2(n)
    ensures BitsValue(s, offset + n, 1) == StorageBit(s, offset + n)
  {
    BitsValueSplit(s, offset, n, 1);
    var b := StorageBit(s, offset + n);
    assert BitSeq(s, offset + n, 1) == [b];
    assert FromBitsLE([b]) == b;
    assert Pow2(n) * b == b * Pow2(n);
  }

  /** What a read of 1 to 32 bits yields: a `uint32_t` whose bit i is storage
      bit offset + i for i < n and clear from n up. */
  lemma FetchedBits(s: seq<uint8>, offset: nat, n: nat)
    requires offset + n <= 8 * |s|
    requires n <= 32
    ensures BitsValue(s, offset, n) < Pow2(n) <= UINT32_MODULUS
    ensures forall i :: 0 <= i < n ==> Bit(BitsValue(s, offset, n), i) == StorageBit(s, offset + i)
    ensures forall i: nat :: i >= n ==> Bit(BitsValue(s, offset, n), i) == 0
  {
    BitsValueBound(s, offset, n);
    Pow2Widths();
    Pow2Monotone(n, 32);
    forall i: nat
      ensures Bit(BitsValue(s, offset, n), i) == if i < n then StorageBit(s, offset + i) else 0
    {
      BitsValueBitAt(s, offset, n, i);
    }
  }

  /** The eight bits of a byte-aligned position are that byte. */
  lemma ByteAsBits(s: seq<uint8>, k: nat)
    requires k < |s|
    ensures BitsValue(s, 8 * k, 8) == s[k]
  {
    forall i | 0 <= i < 8
      ensures BitSeq(s, 8 * k, 8)[i] == BitsOf(s[k], 8)[i]
    {
      assert ByteIndex(8 * k + i) == k;
      assert (8 * k + i) % 8 == i;
    }
    assert BitSeq(s, 8 * k, 8) == BitsOf(s[k], 8);
    assert Pow2(8) == 0x100;
    FromBitsOfValue(s[k], 8);
  }

  /** Little-endian decoding of m bytes from byte k of s reads the same value
      as the 8 * m bits from bit 8 * k on, least-significant bit first. */
  lemma {:induction false} LittleEndianAsBits(s: seq<uint8>, k: nat, m: nat)
    requires k + m <= |s|
    ensures LittleEndian(s[k..k + m]) == BitsValue(s, 8 * k, 8 * m)
    decreases m
  {
    if m > 0 {
      assert s[k..k + m][1..] == s[k + 1..k + 1 + (m - 1)];
      LittleEndianAsBits(s, k + 1, m - 1);
      BitsValueSplit(s, 8 * k, 8, 8 * (m - 1));
      ByteAsBits(s, k);
      assert Pow2(8) == 0x100;
      assert 8 * k + 8 == 8 * (k + 1);
      assert 8 + 8 * (m - 1) == 8 * m;
    }
  }

  /** m bytes decode to a value below 2^(8m). */
  lemma LittleEndianBound(bytes: seq<uint8>)
    ensures LittleEndian(bytes) < Pow2(8 * |bytes|)
  {
    LittleEndianAsBits(bytes, 0, |bytes|);
    assert bytes[0..|bytes|] == bytes;
    BitsValueBound(bytes, 0, 8 * |bytes|);
  }
}
