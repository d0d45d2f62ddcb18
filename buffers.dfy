/** The byte-backed, bit-addressed decode buffer `buffer_t` of the ITTI
    analyzer (common/utils/itti_analyzer/libbuffers/buffers.c).

    Offsets handed to the buffer are bit positions; the fixed-width and
    byte-range fetches honour only the byte part `offset >> 3` of them, while
    `FetchBits` reads true bit positions. Host byte order is taken to be
    little-endian wherever raw bytes are read back as an integer. */
module Buffers {
  import opened Bits

  datatype Option<+T> = None | Some(value: T)

  /** Return codes: RcOk is 0 (RC_OK), RcFailure is -1, RcBadParam is RC_BAD_PARAM. */
  datatype Rc = RcOk | RcFailure | RcBadParam

  /** `memcpy(&dst[dstAt], &src[srcAt], n)` for non-overlapping arrays. */
  method Memcpy(dst: array<uint8>, dstAt: nat, src: array<uint8>, srcAt: nat, n: nat)
    requires dst != src
    requires dstAt + n <= dst.Length && srcAt + n <= src.Length
    modifies dst
    ensures dst[dstAt..dstAt + n] == src[srcAt..srcAt + n]
    ensures dst[..dstAt] == old(dst[..dstAt])
    ensures dst[dstAt + n..] == old(dst[dstAt + n..])
  {
    forall i | dstAt <= i < dstAt + n {
      dst[i] := src[srcAt + (i - dstAt)];
    }
  }

  class Buffer {
    /** The storage, null when the buffer has none. */
    var data: array?<uint8>
    /** The number of valid bytes at the start of `data`. */
    var sizeBytes: nat
    /** `buffer_current` as a byte index into `data`; None for a null pointer. */
    var cursor: Option<nat>

    /** Storage and length agree, and the cursor points into the storage or
        just past its valid bytes. */
    ghost predicate Valid()
      reads this
    {
      && (data == null ==> sizeBytes == 0)
      && (data != null ==> sizeBytes <= data.Length)
      && (cursor.Some? ==> data != null && cursor.value <= sizeBytes)
    }

    /** The bytes the buffer holds. */
    ghost function Contents(): (s: seq<uint8>)
      reads this, data
      requires Valid()
      ensures |s| == sizeBytes
    {
      if data == null then [] else data[..sizeBytes]
    }

    /** `buffer_new_from_data`: with dataStatic == 0 the buffer owns a fresh
        copy of the first `length` bytes of src, otherwise it uses src itself. */
    constructor FromData(src: array?<uint8>, length: uint32, dataStatic: int)
      requires src == null ==> length == 0
      requires src != null ==> length <= src.Length
      ensures Valid()
      ensures sizeBytes == length
      ensures Contents() == if src == null then [] else src[..length]
      ensures src != null && length > 0 && dataStatic == 0 ==>
                data != null && fresh(data) && data.Length == length
      ensures src != null && length > 0 && dataStatic != 0 ==> data == src
      ensures src == null || length == 0 ==> data == null
      ensures cursor == if src != null && length > 0 then Some(0) else None
    {
      sizeBytes := length;
      if src != null && length > 0 {
        if dataStatic == 0 {
          var copy := new uint8[length];
          Memcpy(copy, 0, src, 0, length);
          assert copy[..] == copy[0..length];
          data := copy;
        } else {
          data := src;
        }
        cursor := Some(0);
      } else {
        data := null;
        cursor := None;
      }
    }

    /** `buffer_fetch`: copy `size` bytes from byte `offset >> 3` into value
        and move the cursor just past them, or fail with -1, changing nothing,
        when size is not positive or the bytes are not all there. */
    method Fetch(offset: uint32, size: int, value: array<uint8>) returns (rc: Rc)
      requires Valid()
      requires value != data
      requires 0 < size && ByteIndex(offset) + size <= sizeBytes ==> size <= value.Length
      modifies this`cursor, value
      ensures Valid()
      ensures rc == RcOk <==> 0 < size && ByteIndex(offset) + size <= sizeBytes
      ensures rc != RcOk ==>
                rc == RcFailure && cursor == old(cursor) && value[..] == old(value[..])
      ensures rc == RcOk ==>
                && value[..size] == Contents()[ByteIndex(offset)..ByteIndex(offset) + size]
                && value[size..] == old(value[size..])
                && cursor == Some(ByteIndex(offset) + size)
    {
      if size <= 0 {
        return RcFailure;
      }
      var at := offset / 8;
      if sizeBytes < at + size {
        return RcFailure;
      }
      Memcpy(value, 0, data, at, size);
      cursor := Some(at + size);
      rc := RcOk;
    }

    /** What a fixed-width getter of `size` bytes reads at bit offset `offset`:
        the bytes from `offset >> 3` on as a little-endian integer, or None
        when they are not all there. */
    ghost function FixedWidth(offset: uint32, size: nat): (r: Option<nat>)
      reads this, data
      requires Valid()
    {
      if ByteIndex(offset) + size <= sizeBytes
      then Some(LittleEndian(Contents()[ByteIndex(offset)..ByteIndex(offset) + size]))
      else None
    }

    /** Only the byte part of the offset matters to a fixed-width read. */
    lemma FixedWidthIgnoresBitPart(offset: uint32, size: nat)
      requires Valid()
      ensures FixedWidth(offset, size) == FixedWidth(8 * ByteIndex(offset), size)
    {
    }

    /** `buffer_fetch` into a local of `size` bytes, read back in host order. */
    method FetchLittleEndian(offset: uint32, size: nat) returns (r: Option<nat>)
      requires Valid()
      requires 0 < size
      modifies this`cursor
      ensures Valid()
      ensures r == FixedWidth(offset, size)
      ensures r.Some? ==> r.value < Pow2(8 * size)
      ensures cursor == if r.Some? then Some(ByteIndex(offset) + size) else old(cursor)
    {
      var value := new uint8[size];
      var rc := Fetch(offset, size, value);
      if rc == RcOk {
        assert value[..] == value[..size];
        LittleEndianBound(value[..]);
        r := Some(LittleEndian(value[..]));
      } else {
        r := None;
      }
    }

    /** `buffer_get_uint8_t`; None where the C function returns an
        indeterminate value. */
    method GetUint8(offset: uint32) returns (r: Option<uint8>)
      requires Valid()
      modifies this`cursor
      ensures Valid()
      ensures r == FixedWidth(offset, 1)
      ensures cursor == if r.Some? then Some(ByteIndex(offset) + 1) else old(cursor)
    {
      var v := FetchLittleEndian(offset, 1);
      assert Pow2(8) == 0x100;
      r := if v.Some? then Some(v.value) else None;
    }

    /** `buffer_get_uint16_t`; None where the C function returns an
        indeterminate value. */
    method GetUint16(offset: uint32) returns (r: Option<uint16>)
      requires Valid()
      modifies this`cursor
      ensures Valid()
      ensures r == FixedWidth(offset, 2)
      ensures cursor == if r.Some? then Some(ByteIndex(offset) + 2) else old(cursor)
    {
      var v := FetchLittleEndian(offset, 2);
      Pow2Widths();
      r := if v.Some? then Some(v.value) else None;
    }

    /** `buffer_get_uint32_t`; None where the C function returns an
        indeterminate value. */
    method GetUint32(offset: uint32) returns (r: Option<uint32>)
      requires Valid()
      modifies this`cursor
      ensures Valid()
      ensures r == FixedWidth(offset, 4)
      ensures cursor == if r.Some? then Some(ByteIndex(offset) + 4) else old(cursor)
    {
      var v := FetchLittleEndian(offset, 4);
      Pow2Widths();
      r := if v.Some? then Some(v.value) else None;
    }

    /** `buffer_get_uint64_t`; None where the C function returns an
        indeterminate value. */
    method GetUint64(offset: uint32) returns (r: Option<uint64>)
      requires Valid()
      modifies this`cursor
      ensures Valid()
      ensures r == FixedWidth(offset, 8)
      ensures cursor == if r.Some? then Some(ByteIndex(offset) + 8) else old(cursor)
    {
      var v := FetchLittleEndian(offset, 8);
      Pow2Widths();
      r := if v.Some? then Some(v.value) else None;
    }

    /** `buffer_fetch_nbytes`: copy n bytes from byte `offset >> 3` into value,
        or fail with -1 and leave value alone when they are not all there.
        The cursor is not moved. */
    method FetchNBytes(offset: uint32, nBytes: nat, value: array<uint8>) returns (rc: Rc)
      requires Valid()
      requires value != data
      requires ByteIndex(offset) + nBytes <= sizeBytes ==> nBytes <= value.Length
      modifies value
      ensures rc == RcOk || rc == RcFailure
      ensures rc == RcOk <==> ByteIndex(offset) + nBytes <= sizeBytes
      ensures rc != RcOk ==> value[..] == old(value[..])
      ensures rc == RcOk ==>
                && value[..nBytes] == Contents()[ByteIndex(offset)..ByteIndex(offset) + nBytes]
                && value[nBytes..] == old(value[nBytes..])
    {
      var at := offset / 8;
      if sizeBytes < at + nBytes {
        return RcFailure;
      }
      if nBytes > 0 {
        Memcpy(value, 0, data, at, nBytes);
      }
      rc := RcOk;
    }

    /** The intended underflow test: each of the toGet bits from bit offset on
        lies in a byte the buffer holds. */
    function HasEnoughBits(offset: uint32, toGet: uint32): (rc: Rc)
      reads this
      ensures rc == RcOk || rc == RcFailure
      ensures rc == RcOk <==>
                forall pos :: offset <= pos < offset + toGet ==> ByteIndex(pos) < sizeBytes
    {
      if toGet == 0 || offset + toGet <= 8 * sizeBytes then RcOk
      else
        assert ByteIndex(offset + toGet - 1) >= sizeBytes;
        RcFailure
    }

    /** `buffer_fetch_bits`: the nbits bits from bit offset on, the first of
        them least significant, so that bit i of the result is bit
        (offset + i) % 8 of byte (offset + i) / 8 and every bit from nbits up
        is clear; RC_BAD_PARAM, with value not written (the caller's `prior`
        comes back), when nbits exceeds 32. */
    method FetchBits(offset: uint32, nbits: int, prior: uint32) returns (rc: Rc, value: uint32)
      requires Valid()
      requires 0 < nbits <= 32 ==>
                 HasEnoughBits(offset, nbits) == RcOk && offset + nbits <= UINT32_MODULUS
      ensures rc == if nbits > 32 then RcBadParam else RcOk
      ensures rc == RcBadParam ==> value == prior
      ensures rc == RcOk && nbits <= 0 ==> value == 0
      ensures rc == RcOk && nbits > 0 ==>
                && value == BitsValue(Contents(), offset, nbits)
                && value < Pow2(nbits)
                && (forall i :: 0 <= i < nbits ==> Bit(value, i) == StorageBit(Contents(), offset + i))
                && (forall i: nat :: i >= nbits ==> Bit(value, i) == 0)
    {
      if nbits > 32 {
        return RcBadParam, prior;
      }
      ghost var s := Contents();
      var temp: nat := 0;
      var i: nat := 0;
      while i < nbits
        invariant i <= nbits || i == 0
        invariant i == 0 ==> temp == 0
        invariant i > 0 ==> temp == BitsValue(s, offset, i)
      {
        var pos := offset + i;
        assert data[pos / 8] == s[ByteIndex(pos)];
        var b := Bit(data[pos / 8], pos % 8);
        BitsValueStep(s, offset, i);
        BitsValueBound(s, offset, i);
        // temp |= b << i: bit i of temp is still clear (temp < 2^i), so the OR adds b * 2^i
        temp := temp + b * Pow2(i);
        i := i + 1;
      }
      if nbits > 0 {
        FetchedBits(s, offset, nbits);
      }
      rc, value := RcOk, temp;
    }

    /** `buffer_has_enouch_data`, exactly as written: 0 when
        `size_bytes >= (offset + to_get) / 8` in 32-bit arithmetic, else -1.
        Without wrap-around this admits every request ending before bit
        8 * sizeBytes + 8, up to seven bits more than the buffer holds. */
    function HasEnoughData(offset: uint32, toGet: uint32): (rc: Rc)
      reads this
      ensures rc == RcOk || rc == RcFailure
      ensures offset + toGet < UINT32_MODULUS ==>
                (rc == RcOk <==> offset + toGet < 8 * sizeBytes + 8)
      ensures offset + toGet >= UINT32_MODULUS ==>
                (rc == RcOk <==> offset + toGet - UINT32_MODULUS < 8 * sizeBytes + 8)
    {
      if sizeBytes >= ((offset + toGet) % UINT32_MODULUS) / 8 then RcOk else RcFailure
    }

    /** `buffer_at_offset`: the index of the byte holding bit `offset`; the
        source does not check it, so callers must. */
    function AtOffset(offset: uint32): (index: nat)
      reads this
      requires offset / 8 < sizeBytes
      ensures index < sizeBytes
      ensures 8 * index <= offset < 8 * index + 8
    {
      offset / 8
    }

    /** `buffer_append_data`: when src is present and length positive the
        contents grow by the first `length` bytes of src into fresh storage and
        the cursor goes back to byte 0; otherwise nothing changes. Always 0. */
    method AppendData(src: array?<uint8>, length: uint32) returns (rc: Rc)
      requires Valid()
      requires src != null ==> length <= src.Length
      modifies this
      ensures Valid()
      ensures rc == RcOk
      ensures src != null && length > 0 ==>
                && Contents() == old(Contents()) + src[..length]
                && sizeBytes == old(sizeBytes) + length
                && cursor == Some(0)
                && data != null && fresh(data)
      ensures src == null || length == 0 ==>
                data == old(data) && sizeBytes == old(sizeBytes) && cursor == old(cursor)
    {
      if src != null && length > 0 {
        if data == null {
          var storage := new uint8[length];
          Memcpy(storage, 0, src, 0, length);
          assert storage[..] == storage[0..length];
          data, sizeBytes := storage, length;
        } else {
          // realloc: new storage holding the old bytes, then the appended ones
          var grown := new uint8[sizeBytes + length];
          Memcpy(grown, 0, data, 0, sizeBytes);
          Memcpy(grown, sizeBytes, src, 0, length);
          assert grown[..] == grown[..sizeBytes] + grown[sizeBytes..sizeBytes + length];
          data, sizeBytes := grown, sizeBytes + length;
        }
        cursor := Some(0);
      }
      rc := RcOk;
    }
  }

  /** Whole-byte requests: the floor-division test of `buffer_has_enouch_data`
      for 8 * size bits agrees with the `(offset >> 3) + size` test of
      `buffer_fetch` and `buffer_fetch_nbytes`. */
  lemma HasEnoughDataMatchesFetchBound(b: Buffer, offset: uint32, size: nat)
    requires offset + 8 * size < UINT32_MODULUS
    ensures b.HasEnoughData(offset, 8 * size) == RcOk <==> ByteIndex(offset) + size <= b.sizeBytes
  {
  }

  /** Every request the intended test admits, `buffer_has_enouch_data` admits too. */
  lemma HasEnoughBitsImpliesHasEnoughData(b: Buffer, offset: uint32, toGet: uint32)
    requires offset + toGet < UINT32_MODULUS
    requires toGet > 0
    requires b.HasEnoughBits(offset, toGet) == RcOk
    ensures b.HasEnoughData(offset, toGet) == RcOk
  {
    assert ByteIndex(offset + toGet - 1) < b.sizeBytes;
  }

  /** On an empty buffer `buffer_has_enouch_data(b, 0, 7)` reports enough
      data, though none of the seven bits is stored and the
      `(offset >> 3) + size` test refuses the one byte that would hold them. */
  lemma HasEnoughDataAdmitsMissingBits(b: Buffer)
    requires b.sizeBytes == 0
    ensures b.HasEnoughData(0, 7) == RcOk
    ensures b.HasEnoughBits(0, 7) == RcFailure
    ensures !(ByteIndex(0) + 1 <= b.sizeBytes)
  {
  }

  /** On an empty buffer a request whose end wraps past 2^32 is admitted. */
  lemma HasEnoughDataAdmitsWrappedRequest(b: Buffer)
    requires b.sizeBytes == 0
    ensures b.HasEnoughData(0xFFFF_FFF8, 8) == RcOk
    ensures b.HasEnoughBits(0xFFFF_FFF8, 8) == RcFailure
  {
  }
}
