# PYNQ MMIO region, modelled in Dafny

This project models the `MMIO` class of PYNQ (`python/pynq/mmio.py`). The
class reaches a device's registers by mapping a range of physical memory
through `/dev/mem`. It then reads and writes that range one 32-bit word at
a time. The model covers three operations:

- **Construction** (`MMIO(base_addr, length)`). It rejects negative
  arguments. It rounds the base address down to a page boundary
  (`mmap.PAGESIZE`, 4096 here) and remembers the distance back to the
  requested address as the *base offset*. It rounds the stop address
  `base_addr + length` up to a word boundary and maps the bytes from the
  page base to that stop.
- **`read(offset, length)`**. It checks the arguments against the region
  and seeks to `(base offset & ~3) + offset`. It reads up to `length`
  bytes and unpacks them as one little-endian word.
- **`write(offset, data)`**. It checks the offset and the value or type of
  the data, then the range. It adds the base offset to the offset and
  checks word alignment. It then seeks to `(base offset & ~3) + offset`,
  so the base offset rounded down to a word is added a second time.
  Finally it stores either one packed word or a byte sequence word by
  word.

Python's integers are modelled as unbounded integers with Python's own
operators: `&` over infinite two's complement, `~x` as `-x - 1`, and `%`
rounding toward minus infinity (`PyInt`). A region is an immutable value
`Mmio` holding the geometry and the mapped bytes. Each operation is a pure
function from a region to a result. A write returns the mapping's bytes
both when it returns and when it raises: a byte-sequence write that fails
part-way leaves the words it already stored in place.

Physical memory is a parameter `phys`: a byte sequence from address 0. The
mapping holds `phys[base .. base + length]`. `mmap`'s seek, read and write
follow CPython's bounds rules:

- seek fails past the end;
- read returns at most what is left;
- write fails if the bytes do not fit.

The native byte order of `struct` format `'I'` is taken to be
little-endian. `general_const.py` is not part of this model. Its constants
appear as `WORD_LENGTH` (4) and `WORD_MASK` (`~3`).

Files:

- `pyint.dfy`: Python integer arithmetic.
- `words.dfy`: bytes, little-endian words, `struct.pack('I')` and
  `unpack`, splicing bytes into the mapping.
- `mmio.dfy`: the region and its operations.
- `mmio_properties.dfy`: effects of writes and the write/read round trip.
- `findings.dfy`: the second base-offset compensation in `write`.

## Model

| member | source | states |
|---|---|---|
| Mmio.Construct | python/pynq/mmio.py:73-100 | Raises the negative-argument error exactly when an argument is negative, and otherwise only the mapping error. With non-negative arguments it succeeds exactly when the page base lies below the word-aligned stop and the stop is inside physical memory. |
| Mmio.ConstructedRegion | python/pynq/mmio.py:80-100 | A constructed region is well formed. Its base is the page boundary at or below the address, and its base offset is the distance from there to the address. Its mapped length covers the base offset and the request with fewer than 4 bytes to spare, and with none when the stop is aligned. Its mapping holds the physical bytes at its base. |
| Mmio.PageBase | python/pynq/mmio.py:81 | `base_addr & ~(PAGESIZE - 1)` is a multiple of the page size, and the address lies less than one page above it. |
| Mmio.AlignedStop | python/pynq/mmio.py:84-88 | The stop address ends on a word boundary. An aligned stop is kept; any other moves up by 1 to 3 bytes to the next word boundary. |
| Mmio.WordBase | python/pynq/mmio.py:131 | `base_addr_offset & MMIO_WORD_MASK` is the base offset rounded down to a multiple of 4, less than a word below it. |
| Mmio.ReadPosition | python/pynq/mmio.py:131-132 | `read` seeks to the base offset minus its remainder modulo 4, plus the offset: at or after the offset and at or before the base offset plus the offset. |
| Mmio.WritePosition | python/pynq/mmio.py:172-180 | `write` seeks to the base offset rounded down to a word plus the already shifted offset: the read position plus the base offset. When the shifted offset is a multiple of 4, so is the position. |
| Mmio.RoundDownToWord | python/pynq/mmio.py:131 | `MMIO_WORD_MASK` is -4. Masking a non-negative integer with it subtracts its remainder modulo 4, giving the multiple of 4 at or less than a word below it. |
| Mmio.PageBaseIsWordAligned | python/pynq/mmio.py:81 | A page boundary is also a word boundary. |
| Mmio.MappedLengthIsWords | python/pynq/mmio.py:84-90 | The mapped length, stop minus page base, is never negative and is a whole number of words. |
| Mmio.Read | python/pynq/mmio.py:118-135 | Raises the negative-argument error exactly when an argument is negative. Raises the exceeds-length error exactly when the range runs past the region. Errors only come from the checks, the seek or the unpack. A value is returned only when the read position has a whole word inside the mapping and either 4 bytes were asked for or the read was cut to 4 by the end of the mapping. That value is below 2**32 and packs back to the 4 bytes at the read position. A 4-byte read whose word lies inside both region and mapping always succeeds. |
| MmioProperties.ReadWordValue | python/pynq/mmio.py:130-135 | A 4-byte read inside region and mapping returns the little-endian value of the 4 bytes at the base offset rounded down to a word, plus the offset. |
| MmioProperties.ReadOnlySeesItsWord | python/pynq/mmio.py:130-135 | A 4-byte read depends only on the 4 bytes at its position: two mappings that agree there read the same. |
| Mmio.CheckWrite | python/pynq/mmio.py:153-176 | The checks pass exactly when the offset is non-negative, the data is an int up to 2**32 - 1 or a str or bytes, the offset plus the data's length fits the region, and the shifted offset is a multiple of 4. A failing check reports, in source order, the first one that fails. |
| Mmio.Write | python/pynq/mmio.py:153-190 | Each failed check raises its own error and leaves the mapping untouched, in the order the source makes them. A write that returns passed every check. The mapping keeps its length. Only a failure inside the mapping can leave bytes changed. |
| Mmio.Transfer | python/pynq/mmio.py:178-190 | The seek and the store keep the mapping's length. An error other than the mmap buffer error leaves it unchanged. A transfer that returns had its position inside the mapping, and one that took the single-word path stored the 4 packed bytes of a non-negative int there. |
| Mmio.WriteWord | python/pynq/mmio.py:182-185 | The single-word path raises with no change, either because `hex` or `struct.pack` rejects the data (a str, bytes or negative int) or because the 4 bytes do not fit. When it returns, the data was a non-negative int and its 4 packed bytes sit at the position. |
| Mmio.WriteSequence | python/pynq/mmio.py:186-190 | The byte-sequence path keeps the mapping's length. A str never changes the mapping and returns only when it is empty, since slicing it yields a str that `int.from_bytes` rejects. A bytes write can only raise the mmap buffer error. |
| MmioProperties.WriteKeepsValid | python/pynq/mmio.py:153-190 | Writing, returning or raising, keeps a constructed region well formed. |
| Mmio.WriteChunks | python/pynq/mmio.py:186-190 | The loop over 4-byte chunks keeps the mapping's length. It can only raise the mmap buffer error. |
| MmioProperties.WriteChunksStores | python/pynq/mmio.py:186-190 | When the padded sequence fits from the cursor, the loop stores the whole byte sequence, zero-padded to whole words, at the cursor and nothing else. |
| MmioProperties.WriteChunksStops | python/pynq/mmio.py:186-190 | When the padded sequence does not fit, the loop stores exactly the whole words that fit before the end, then raises. |
| MmioProperties.WriteChunksEffect | python/pynq/mmio.py:186-190 | From a position inside the mapping, the loop has the effect of the direct description `StoreBytes`. It stores the whole padded sequence when it fits after the cursor. Otherwise it stores the whole words that fit and then raises. |
| MmioProperties.WriteChunksStep | python/pynq/mmio.py:186-190 | One turn of the loop stores the first 4 padded bytes and continues with the rest of the data; the padded data is that word followed by the padded rest. |
| MmioProperties.PaddedSplit | python/pynq/mmio.py:187-188 | Padding a byte sequence to whole words is its first chunk of at most 4 bytes, zero-padded, followed by the padding of the rest. |
| Mmio.PaddedContents | python/pynq/mmio.py:187-190 | The padded sequence starts with the data and continues with zeros only. |
| MmioProperties.WriteWordEffect | python/pynq/mmio.py:178-185 | An int write that passes the checks stores the 4 little-endian bytes of the value at the write position and nothing else, or raises with no change when they do not fit. |
| MmioProperties.TransferBytesEffect | python/pynq/mmio.py:180-190 | A byte-sequence transfer whose length is not 4 has the effect of `StoreBytes`: it raises with no change when the seek passes the end, and otherwise stores the padded sequence, or the words that fit before raising. |
| MmioProperties.WriteBytesEffect | python/pynq/mmio.py:153-190 | A byte-sequence write whose length is not 4 and that passes the checks has the effect of `StoreBytes` at the write position: no change and an error, the whole padded sequence stored, or the whole words that fit stored and then an error, depending only on the room after the write position. |
| MmioProperties.WriteBytesStored | python/pynq/mmio.py:186-190 | A byte-sequence write that returns has stored the whole padded sequence at the write position. |
| MmioProperties.LargestWordAccepted | python/pynq/mmio.py:156-158 | 2**32 - 1 is never rejected as too large. |
| MmioProperties.NegativeIntNeverStored | python/pynq/mmio.py:156-185 | A negative int passes the value check but never changes the mapping. Once it passes the other checks and the seek, packing it raises a conversion error. |
| MmioProperties.FourBytesNeverStored | python/pynq/mmio.py:182-185 | A 4-byte str or bytes takes the single-word path, where `hex(data)` raises, so the write always raises and changes nothing. |
| MmioProperties.StrNeverStored | python/pynq/mmio.py:160-190 | A str never changes the mapping, and a write of one returns normally only when it is empty. |
| MmioProperties.WriteThenReadWord | python/pynq/mmio.py:130-185 | With a zero base offset, an in-range aligned word written at an offset reads back from that offset. |
| MmioProperties.WriteBytesThenReadWords | python/pynq/mmio.py:130-190 | With a zero base offset, after a byte sequence is written, each word it covers reads back as the little-endian value of the matching 4 padded bytes. |
| MmioProperties.WriteMissesReadWord | python/pynq/mmio.py:130-180 | With a non-zero word-aligned base offset, a word write lands one base offset past the word `read` sees at the same offset, so that read still returns the old value. |
| MmioProperties.PageAlignedWordScenario | python/pynq/mmio.py:73-185 | A region at 0x1000 of length 4 is one word at a page start, and 0xDEADBEEF written at offset 0 reads back from offset 0. |
| MmioFindings.WriteAtRequestedAddressFails | python/pynq/mmio.py:172-180 | For a region at 0x1004 of length 4: the mapping is 0x1000..0x1008 with base offset 4, and `read(0)` sees byte 4. `write(0, v)` seeks to byte 8 and raises, while the corrected write stores v at byte 4. |
| MmioFindings.RequestedPosition | python/pynq/mmio.py:143-144 | The mapping byte of the requested address plus the offset is the write position without the second, rounded-down base offset. It is the read position when the base offset is a multiple of 4. |
| MmioFindings.WriteCompensatedOnce | python/pynq/mmio.py:172-180 | The corrected write makes the same checks with the same errors as `write`. It returns only when they pass, and a non-buffer error leaves the mapping unchanged. When the base offset is below 4 it is exactly `write`. A word it stores lands, word-aligned and inside the mapping, at the base offset plus the offset. |
| MmioFindings.CompensatedOnceWriteThenRead | python/pynq/mmio.py:130-185 | With the corrected write and a base offset that is a multiple of 4, a word written at an aligned in-range offset reads back from that offset. |
| PyInt.BitAnd | python/pynq/mmio.py:131 | Python's `&` with a non-negative operand lies between 0 and that operand, and with two negative operands is negative. |
| PyInt.BitAndClearsLowBits | python/pynq/mmio.py:81 | For a non-negative address, masking with the complement of 2**k - 1 subtracts its remainder modulo 2**k. |
| PyInt.BitAndKeepsLowBits | python/pynq/mmio.py:175 | For a non-negative offset, masking with 2**k - 1 keeps its remainder modulo 2**k, so the alignment test checks divisibility by 4. |
| PyInt.FloorModByMinusFour | python/pynq/mmio.py:86 | Python's `stop % -4` is zero exactly when the stop is a multiple of 4. |
| PyInt.FloorMod | python/pynq/mmio.py:86 | Python's remainder takes the sign of the divisor and is smaller than it in magnitude. |
| Words.LeValue | python/pynq/mmio.py:188-189 | `int.from_bytes(..., byteorder='little')` of n bytes is below 256**n. |
| Words.Pack32 | python/pynq/mmio.py:185-190 | `struct.pack('I', v)` of a word is 4 bytes whose little-endian value is v. |
| Words.Unpack32 | python/pynq/mmio.py:135 | `struct.unpack('I', b)` of 4 bytes is below 2**32, and packing it gives the bytes back. |
| Words.PackChunk | python/pynq/mmio.py:188-190 | A chunk of at most 4 bytes, read with `int.from_bytes` in little-endian order and packed, becomes the chunk followed by zeros. |
| Words.LeValueOfLeBytes | python/pynq/mmio.py:188-190 | Decoding the little-endian encoding of a value that fits gives the value back. |
| Words.LeBytesOfLeValue | python/pynq/mmio.py:135 | Encoding the little-endian value of some bytes in as many bytes gives them back. |
| Words.LeValueZeroExtend | python/pynq/mmio.py:188-190 | Trailing zero bytes do not change a little-endian value, which is why a short final chunk is stored zero-padded. |
| Words.Splice | python/pynq/mmio.py:185-190 | Writing bytes at the cursor replaces exactly those bytes. Everything before and after is kept, and the length is kept. |

## Left out

- Root check. `os.geteuid()` and the `EnvironmentError` for non-root callers (mmio.py:76-78) are not modelled. The model assumes a root caller.
- Opening the device. `os.open` of `/dev/mem` and `mmap.mmap` are replaced by slicing the parameter `phys`. A mapping of length 0, or one that runs past `phys`, fails with `MappingFailure`. The real failure modes of `/dev/mem` (kernel restrictions on which physical ranges may be mapped) are not modelled.
- Sharing. The mapping is `MAP_SHARED` to device registers. The model treats it as ordinary memory that keeps what was written; register side effects, concurrent access and `O_SYNC` ordering are out of scope.
- Cursor. The mmap seek cursor is not kept between calls. Every `read` and `write` seeks first, so no operation depends on where the previous one left it.
- Debug output. `debug`, `_debug` and the trace strings (mmio.py:92-94, 127-128, 183-184) are not modelled as output. `hex(data)` at line 184 is evaluated even with debug off, and its failure on a str or bytes is modelled.
- Byte order. `struct`'s native byte order for `'I'` is fixed to little-endian, as on the ARM boards PYNQ runs on.
- MmioFindings.CompensatedOnceWriteThenRead: the round trip is promised only for base offsets that are multiples of 4. For any other base offset `read` seeks to the base offset rounded down to a word plus the offset (lines 131-132), which is not the requested address the corrected write stores at. A write that read back there would have to store at that read position, which is not word-aligned when the shifted offset is.
- Integer inputs. Python `bool` (a subtype of `int`, where `type(data) is int` is false) and subclasses of `int`, `str` and `bytes` fall under `Other`, as `type(...) is` makes them.

## Findings

| source | as written | input that shows it | evidently intended | confidence | as-written member | corrected member |
|---|---|---|---|---|---|---|
| python/pynq/mmio.py:172-180 | `write` adds the base offset to the offset (line 172), then seeks to `(base offset & ~3) + offset` (line 180), so the base offset rounded down to a word is added a second time. `read` adds only the rounded-down base offset (lines 131-132). | `MMIO(0x1004, 4).write(0, v)`: the mapping is 8 bytes with base offset 4; `read(0)` reads byte 4, and `write(0, v)` seeks to byte 8, the end of the mapping, and raises. | The write lands on the requested address plus the offset, mapping byte base offset + offset, as the `offset` parameter's description promises (lines 143-144). When the base offset is a multiple of 4 this is where `read` seeks, and the word written reads back. | not executed | Mmio.Write, MmioFindings.WriteAtRequestedAddressFails, MmioProperties.WriteMissesReadWord | MmioFindings.WriteCompensatedOnce, MmioFindings.CompensatedOnceWriteThenRead |

The `offset` parameter of `write` is described as the offset added to the
MMIO base address (mmio.py:143-144), so in that example the write should
land at mapping byte 4. The model follows the code, which seeks to byte 8;
`Mmio.Write` is the code as written, and
`MmioFindings.WriteCompensatedOnce` is the write as intended. For base
offsets 1 to 3 the two agree, since the rounded-down base offset is 0.
