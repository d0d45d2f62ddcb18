# libbuffers `buffer_t` in Dafny

This project models the bit-addressed decode buffer `buffer_t` that the ITTI
analyzer of OpenAirInterface uses to pick binary messages apart
(`common/utils/itti_analyzer/libbuffers/buffers.c`). It proves the model's
properties with Dafny.

A buffer is a byte array, a count of valid bytes and a cursor
(`buffer_current`). Callers give offsets in bits. The operations are:

- `buffer_fetch`, with its four fixed-width wrappers, and
  `buffer_fetch_nbytes`. They honour only the byte part `offset >> 3` of the
  offset.
- `buffer_fetch_bits`. It reads true bit positions, least-significant bit
  first.
- `buffer_append_data`, which grows the storage.
- `buffer_has_enouch_data`, a standalone underflow test.
- `buffer_at_offset`, an unchecked byte lookup.

Files:

- `bits.dfy`, module `Bits`. The C integer types and C's shifts and masks on
  unsigned values (`Pow2` is `1 << k`, `Shr` is `>>`, `Bit` is `(x >> k) & 1`,
  `ByteIndex` is `>> 3`). Also the meaning of a run of storage bits
  (`StorageBit`, `BitsValue`), little-endian decoding (`LittleEndian`), and the
  lemmas that connect them.
- `buffers.dfy`, module `Buffers`. The return codes (`Rc`: `RcOk` is 0 or
  `RC_OK`, `RcFailure` is -1, `RcBadParam` is `RC_BAD_PARAM`). Also `memcpy`
  and the class `Buffer`, with fields `data` (null when there is no storage),
  `sizeBytes` and `cursor`. `Valid()` is the object invariant. It says that a
  null `data` holds no bytes, that `sizeBytes` never exceeds the storage, and
  that the cursor lies within the storage or just past its valid bytes.
  `Contents()` is the abstract value, the valid bytes.
- `scenarios.dfy`, module `BufferScenarios`. Client methods that derive, from
  the contracts alone, what a caller of `buffer_t` can rely on: copy
  isolation, borrowed aliasing, append associativity, and small concrete
  inputs.

Host byte order is assumed to be little-endian. `buffer_fetch` copies raw
bytes, so `GetUint16` and the other getters decode with `LittleEndian`.
`Bits.LittleEndianAsBits` proves that m bytes from a byte-aligned offset decode
to `BitsValue` of the same 8m bits. For 1, 2 and 4 bytes that is what
`buffer_fetch_bits` returns. A 64-bit read has no bit-fetch counterpart,
because `buffer_fetch_bits` returns `RC_BAD_PARAM` above 32 bits.

Points where the code's behaviour is easy to misread, kept as written:

- On a failed fetch the wrappers return the indeterminate `value`, not zero.
  The model returns `None`.
- Append resets the cursor to byte 0.
- `buffer_fetch_bits` with `nbits <= 0` returns `RC_OK` and 0.
- No allocation failure is checked, so no allocation error is modelled.
- `buffer_fetch_nbytes` checks neither `NULL` nor `n_bytes <= 0`.

## Model

| member | source | states |
|---|---|---|
| `Buffers.Memcpy` | common/utils/itti_analyzer/libbuffers/buffers.c:92 | copies n bytes between distinct arrays and leaves the rest of the destination as it was |
| `Buffers.Buffer.FromData` | common/utils/itti_analyzer/libbuffers/buffers.c:138-164 | sizeBytes equals length; contents are the first length bytes of the source; with data_static 0, storage is a fresh array of exactly length bytes; otherwise storage is the caller's array itself; no storage and a null cursor when data is absent or length is 0, else cursor at byte 0 |
| `Buffers.Buffer.Fetch` | common/utils/itti_analyzer/libbuffers/buffers.c:79-96 | 0 exactly when size > 0 and (offset>>3)+size <= size_bytes, then value[0..size) equals the bytes from offset>>3, the rest of value is untouched and the cursor is (offset>>3)+size; otherwise -1 with value and cursor unchanged; data and size are never changed |
| `Buffers.Buffer.FixedWidthIgnoresBitPart` | common/utils/itti_analyzer/libbuffers/buffers.c:87-92 | a fixed-width read at a bit offset equals the read at the start of that offset's byte |
| `Buffers.Buffer.FetchLittleEndian` | common/utils/itti_analyzer/libbuffers/buffers.c:92-93 | a successful fetch into a size-byte local, read in host order, is the little-endian value of those bytes, below 2^(8*size); the cursor moves exactly on success |
| `Buffers.Buffer.GetUint8` | common/utils/itti_analyzer/libbuffers/buffers.c:39-47 | the byte at offset>>3 when it exists, else None; the cursor moves past it only on success |
| `Buffers.Buffer.GetUint16` | common/utils/itti_analyzer/libbuffers/buffers.c:49-57 | the little-endian value of the 2 bytes at offset>>3 when they exist, else None; cursor as for Fetch |
| `Buffers.Buffer.GetUint32` | common/utils/itti_analyzer/libbuffers/buffers.c:59-67 | the little-endian value of the 4 bytes at offset>>3 when they exist, else None; cursor as for Fetch |
| `Buffers.Buffer.GetUint64` | common/utils/itti_analyzer/libbuffers/buffers.c:69-77 | the little-endian value of the 8 bytes at offset>>3 when they exist, else None; cursor as for Fetch |
| `Buffers.Buffer.FetchNBytes` | common/utils/itti_analyzer/libbuffers/buffers.c:98-107 | 0 exactly when (offset>>3)+n_bytes <= size_bytes, then value[0..n) equals the bytes from offset>>3 and the rest is untouched; otherwise -1 with the destination untouched; the cursor is never moved |
| `Buffers.Buffer.FetchBits` | common/utils/itti_analyzer/libbuffers/buffers.c:109-129 | RC_BAD_PARAM exactly when nbits > 32, and then *value is not written; otherwise RC_OK with bit i of the result equal to bit (offset+i)%8 of byte (offset+i)/8 for i < nbits, every higher bit clear, and the result < 2^nbits; 0 when nbits <= 0; the loop keeps "temp holds the first i bits" |
| `Bits.FetchedBits` | common/utils/itti_analyzer/libbuffers/buffers.c:121-128 | the packed value of n <= 32 storage bits fits in a uint32_t, has storage bit offset+i at position i and nothing at or above n |
| `Bits.BitsValueStep` | common/utils/itti_analyzer/libbuffers/buffers.c:121-124 | one loop step: the value of n+1 bits is the value of n bits plus storage bit offset+n shifted left by n, and a one-bit read yields that storage bit |
| `Bits.BitsValueSplit` | common/utils/itti_analyzer/libbuffers/buffers.c:121-124 | reading a+b bits equals reading a bits plus the next b bits shifted left by a, so a read of n bits is the sum of its single-bit reads |
| `Bits.BitsValueBitAt` | common/utils/itti_analyzer/libbuffers/buffers.c:123 | bit i of the packed value of n storage bits is storage bit offset+i when i < n and 0 otherwise |
| `Bits.BitsValueBound` | common/utils/itti_analyzer/libbuffers/buffers.c:121-126 | the packed value of n storage bits is below 2^n |
| `Bits.FromBitsBitAt` | common/utils/itti_analyzer/libbuffers/buffers.c:123 | after temp is or-ed with each bit shifted to its position, bit i of temp is the i-th bit, and bits past the end are 0 |
| `Bits.FromBitsConcat` | common/utils/itti_analyzer/libbuffers/buffers.c:121-124 | packing a concatenation puts the second part above the first, shifted by the length of the first |
| `Bits.FromBitsOfValue` | common/utils/itti_analyzer/libbuffers/buffers.c:123 | a value below 2^k is recovered from its k bits `(x >> i) & 1` |
| `Bits.ByteAsBits` | common/utils/itti_analyzer/libbuffers/buffers.c:123 | the 8 storage bits from a byte-aligned position, packed least-significant bit first, are that byte |
| `Bits.LittleEndianAsBits` | common/utils/itti_analyzer/libbuffers/buffers.c:92 | m raw bytes from byte k, read in little-endian host order, equal the 8m bits from bit 8k packed least-significant bit first (`BitsValue`); so for 1, 2 and 4 bytes the aligned fixed-width fetch and `buffer_fetch_bits` agree (above 32 bits the bit fetch returns RC_BAD_PARAM) |
| `Bits.LittleEndianBound` | common/utils/itti_analyzer/libbuffers/buffers.c:40-77 | m bytes decode to a value below 2^(8m), so 1, 2, 4 and 8 bytes fit in uint8_t to uint64_t |
| `Buffers.Buffer.HasEnoughData` | common/utils/itti_analyzer/libbuffers/buffers.c:223-233 | the function as written, with the 32-bit wrap of offset + to_get: it returns 0 exactly when that sum, reduced mod 2^32, is below 8*size_bytes + 8, and -1 otherwise |
| `Buffers.Buffer.HasEnoughBits` | common/utils/itti_analyzer/libbuffers/buffers.c:228 | the intended test: 0 exactly when every requested bit lies in a held byte |
| `Buffers.HasEnoughDataMatchesFetchBound` | common/utils/itti_analyzer/libbuffers/buffers.c:228 | for whole-byte requests (to_get = 8*size, no wrap), the floor-division test agrees with the (offset>>3)+size test of line 87 |
| `Buffers.HasEnoughBitsImpliesHasEnoughData` | common/utils/itti_analyzer/libbuffers/buffers.c:228 | with no wrap, every non-empty request that the intended test admits is admitted by the function as written |
| `Buffers.HasEnoughDataAdmitsMissingBits` | common/utils/itti_analyzer/libbuffers/buffers.c:228 | on an empty buffer the function as written admits 7 bits at offset 0; the intended test rejects them, and so does the (offset>>3)+size test of line 87 for the one byte that would hold them |
| `Buffers.HasEnoughDataAdmitsWrappedRequest` | common/utils/itti_analyzer/libbuffers/buffers.c:228 | on an empty buffer the function as written admits 8 bits at offset 0xFFFFFFF8, because the sum wraps to 0 |
| `Buffers.Buffer.AtOffset` | common/utils/itti_analyzer/libbuffers/buffers.c:235-241 | under the caller's check offset/8 < size_bytes, the index of a held byte, and that byte contains bit offset |
| `Buffers.Buffer.AppendData` | common/utils/itti_analyzer/libbuffers/buffers.c:202-221 | returns 0; with data present and length > 0, the contents become the old contents followed by the appended bytes, in fresh storage; size grows by exactly length; the cursor is reset to byte 0; otherwise nothing changes |
| `BufferScenarios.CopyIgnoresLaterWrites` | common/utils/itti_analyzer/libbuffers/buffers.c:150-152 | a copying buffer still yields the original byte after the caller overwrites the source |
| `BufferScenarios.BorrowedSeesLaterWrites` | common/utils/itti_analyzer/libbuffers/buffers.c:153-155 | a buffer on the caller's array yields the byte the caller wrote after construction |
| `BufferScenarios.AppendTwiceIsAppendOnce` | common/utils/itti_analyzer/libbuffers/buffers.c:207-218 | appending A then B leaves the same bytes, size and cursor as appending A++B once |
| `BufferScenarios.TwoByteReads` | common/utils/itti_analyzer/libbuffers/buffers.c:50-57 | on bytes 0x12 0x34, get_uint16(0) is 0x3412 and fetch_bits(4, 4) is 0x1 |
| `BufferScenarios.HighNibble` | common/utils/itti_analyzer/libbuffers/buffers.c:121-124 | bits 4 to 7 of 0x12 0x34 are the value 1 |
| `BufferScenarios.EmptyBufferUnderflow` | common/utils/itti_analyzer/libbuffers/buffers.c:228 | an empty buffer does not have 8 bits at offset 0 |
| `BufferScenarios.ShortByteRange` | common/utils/itti_analyzer/libbuffers/buffers.c:100-103 | fetching 4 bytes from a 3-byte buffer returns -1 and leaves the destination as it was |

## Left out

- `buffer_dump` (lines 175-200) is left out. It only writes formatted text to a `FILE*`. As written it prints to the caller's `to` even when that is `NULL`, because `file` is copied before `to` is defaulted to `stdout`.
- `g_warning` and `debug_buffers` are left out. They are diagnostic logging only.
- The `NULL` checks on the buffer and value pointers are left out (lines 82-83, 114-115, 143-144, 204-205, 226-227). In the model the buffer is the method's receiver and values are out-parameters or non-null arrays, so neither can be null.
- `malloc`/`realloc` failure is not modelled. The source checks neither, and `new` always succeeds.
- Buffers.Buffer.AppendData: `realloc` is modelled as a fresh array holding a copy of the old bytes. The old array is left untouched. On a buffer built with `data_static != 0`, the real `realloc` acts on the caller's array and may free it or be undefined. The model does not capture that.
- Releasing storage is not modelled. This file has no destroy function, and Dafny has no deallocation.
- Buffers.Buffer.FromData: when data is absent or length is 0, the C code leaves `new->data` uninitialised. The model sets it to null, which is what `buffer_append_data`'s `!buffer->data` test expects. A null `data` with `length > 0` is excluded by a precondition. The `buffer == NULL` (RC_BAD_PARAM) path has no counterpart, because a constructor has no out-pointer.
- Buffers.Buffer.GetUint8, GetUint16, GetUint32 and GetUint64 return None where the C functions return an indeterminate value. Host byte order is assumed to be little-endian.
- Buffers.Buffer.FetchBits requires that the requested bits lie in the buffer and that `offset + nbits <= 2^32`. The source checks neither. It reads past the storage, or wraps `offset + i`.
- Buffers.Buffer.FetchBits models `temp |= bit << i` as `temp + bit * 2^i`. The loop keeps `temp < 2^i`, so bit i of temp is clear before the OR.
- Buffers.Buffer.FetchBits: the shift `(... & 1) << i` at line 123 is done in signed `int`, because the `uint8_t` operand is promoted. At i == 31 with the storage bit set, `1 << 31` overflows `int`, which C leaves undefined. The model takes the two's-complement value 2^31, so bit 31 of the result is that storage bit.
- Buffers.Buffer.FetchNBytes takes `n_bytes` as a natural number. A negative C `int` would be converted to a huge unsigned count, and that case is not modelled.
- Buffers.Buffer.Fetch and Buffers.Buffer.FetchNBytes require the destination to differ from the buffer's storage, because `memcpy` does not allow overlap.
- `sizeBytes` is unbounded. `buffers.h` is not part of this model, so the width of `size_bytes` is unknown, and a wrap of `size_bytes + length` in append is not modelled.
- `rc.h` is not part of this model, so the numeric values of `RC_OK` and `RC_BAD_PARAM` are not fixed.
- No concurrency exists in this file.

## Findings

| source | as written | input that shows it | evidently intended | confidence | as-written member | corrected member |
|---|---|---|---|---|---|---|
| common/utils/itti_analyzer/libbuffers/buffers.c:228 | `size_bytes >= (offset + to_get) / 8` rounds the end bit down, so a request whose last bits fall past the stored bytes is accepted | size_bytes = 0, offset = 0, to_get = 7: returns 0 although no byte is stored | every requested bit lies in a stored byte: `offset + to_get <= 8 * size_bytes` (or `to_get == 0`) | not executed; high | `Buffers.HasEnoughDataAdmitsMissingBits` | `Buffers.Buffer.HasEnoughBits` |
| common/utils/itti_analyzer/libbuffers/buffers.c:228 | `offset + to_get` is computed in 32-bit unsigned arithmetic and wraps | size_bytes = 0, offset = 0xFFFFFFF8, to_get = 8: the sum wraps to 0 and the function returns 0 | the test on the unbounded sum | not executed; medium | `Buffers.HasEnoughDataAdmitsWrappedRequest` | `Buffers.Buffer.HasEnoughBits` |

`Buffers.Buffer.FetchBits` states the bits it needs through the corrected
`HasEnoughBits`.
