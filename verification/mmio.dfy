/** The MMIO region accessor of `python/pynq/mmio.py`: a physical address
    range, aligned down to a page and up to a word, mapped once and then
    read and written one 32-bit word at a time.

    The mapping is an immutable value: `Mmio` records the aligned geometry
    and the bytes of the mapping, and every operation is a pure function
    from a region (and its arguments) to a result. `mmap` and the file it is
    opened on become a byte sequence `phys` standing for physical memory
    from address 0; the mmap seek cursor becomes an explicit position. */
module Mmio {

  import PyInt
  import opened Words

  /** log2 of the platform page size `mmap.PAGESIZE`. */
  const PAGE_SHIFT: nat := 12

  /** The platform page size `mmap.PAGESIZE`, 2 to the PAGE_SHIFT. */
  const PAGESIZE: nat := 4096

  /** `MMIO_WORD_MASK`, which is `~3`: all bits set but the two that address
      a byte inside a word. */
  const WORD_MASK: int := PyInt.BitNot(WORD_LENGTH - 1)

  /** The exceptions the region raises, with the Python exception each
      stands for. */
  datatype Error =
    | NegativeArgument   // ValueError: negative address, offset or length
    | ValueTooLarge      // ValueError: an int above 2**32 - 1 given to write
    | UnsupportedType    // ValueError: write data neither int, str nor bytes
    | ExceedsLength      // MemoryError: offset + length beyond the region
    | NotAligned         // MemoryError: write to a position that is not a word boundary
    | ConversionFailure  // TypeError or struct.error while converting the data
    | BufferFailure      // ValueError from mmap: seek, read or write outside the mapping
    | MappingFailure     // mmap.mmap cannot map the requested range

  datatype Result<T> = Ok(value: T) | Err(error: Error)

  /** The data argument of `write`, after Python's dynamic type dispatch. */
  datatype Data =
    | Int(i: int)
    | Str(s: string)
    | Bytes(b: seq<byte>)
    | Other

  /** The outcome of `write`: the mapping's bytes after it returned or after
      it raised. A write that raises part-way through a byte sequence leaves
      the words it already stored in place. */
  datatype WriteOutcome =
    | Written(mem: seq<byte>)
    | Raised(error: Error, mem: seq<byte>)

  /** An MMIO object: the page-aligned base address, the distance from it to
      the address the caller asked for, the mapped length, and the mapping. */
  datatype Mmio = Mmio(baseAddr: nat, baseAddrOffset: nat, length: nat, mem: seq<byte>)

  /** What every constructed region satisfies. */
  predicate Valid(m: Mmio) {
    && m.baseAddr % PAGESIZE == 0
    && m.baseAddrOffset < PAGESIZE
    && m.length % WORD_LENGTH == 0
    && m.baseAddrOffset <= m.length
    && |m.mem| == m.length
  }

  lemma PageSizeIsPowerOfTwo()
    ensures PAGESIZE == PyInt.Pow2(PAGE_SHIFT)
  {
  }

  /** `base_addr & ~(mmap.PAGESIZE - 1)`: the page boundary at or below an
      address. */
  function PageBase(address: nat): (base: nat)
    ensures base % PAGESIZE == 0
    ensures base <= address < base + PAGESIZE
  {
    PageSizeIsPowerOfTwo();
    PyInt.BitAndClearsLowBits(address, PAGE_SHIFT);
    PyInt.BitAnd(address, PyInt.BitNot(PAGESIZE - 1))
  }

  /** A page boundary is also a word boundary. */
  lemma PageBaseIsWordAligned(address: nat)
    ensures PageBase(address) % WORD_LENGTH == 0
  {
    var base := PageBase(address);
    PyInt.ModUnique(base, WORD_LENGTH, (PAGESIZE / WORD_LENGTH) * (base / PAGESIZE), 0);
  }

  /** The length from the page base to the aligned stop is a whole number
      of words and covers the requested range. */
  lemma MappedLengthIsWords(address: nat, length: nat)
    ensures PageBase(address) <= AlignedStop(address + length)
    ensures (AlignedStop(address + length) - PageBase(address)) % WORD_LENGTH == 0
  {
    var base, stop := PageBase(address), AlignedStop(address + length);
    PageBaseIsWordAligned(address);
    PyInt.ModUnique(stop - base, WORD_LENGTH, stop / WORD_LENGTH - base / WORD_LENGTH, 0);
  }

  /** Masking with `MMIO_WORD_MASK` rounds a non-negative integer down to a
      word boundary. */
  lemma RoundDownToWord(a: nat)
    ensures WORD_MASK == -(WORD_LENGTH as int)
    ensures PyInt.BitAnd(a, WORD_MASK) == a - a % WORD_LENGTH
    ensures var r := PyInt.BitAnd(a, WORD_MASK);
            0 <= r && r % WORD_LENGTH == 0 && r <= a < r + WORD_LENGTH
  {
    PyInt.BitAndClearsLowBits(a, 2);
    assert PyInt.Pow2(2) == WORD_LENGTH;
  }

  /** The stop address rounded up to a word boundary: an aligned stop is
      kept, any other is moved to the next multiple of the word length. */
  function AlignedStop(stop: nat): (r: nat)
    ensures r % WORD_LENGTH == 0
    ensures stop % WORD_LENGTH == 0 ==> r == stop
    ensures stop % WORD_LENGTH != 0 ==> stop < r < stop + WORD_LENGTH
  {
    assert PyInt.FloorMod(stop, WORD_MASK) != 0 <==> stop % WORD_LENGTH != 0 by {
      RoundDownToWord(0);
      PyInt.FloorModByMinusFour(stop);
    }
    if PyInt.FloorMod(stop, WORD_MASK) != 0 then
      var r := PyInt.BitAnd(stop + WORD_LENGTH, WORD_MASK);
      assert r % WORD_LENGTH == 0 && r == stop + WORD_LENGTH - stop % WORD_LENGTH by {
        RoundDownToWord(stop + WORD_LENGTH);
        PyInt.ModUnique(stop + WORD_LENGTH, WORD_LENGTH, stop / WORD_LENGTH + 1, stop % WORD_LENGTH);
      }
      r
    else
      stop
  }

  /** `base_addr_offset & MMIO_WORD_MASK`: the base offset rounded down to a
      word boundary. */
  function WordBase(offset: nat): (r: nat)
    ensures r == offset - offset % WORD_LENGTH
    ensures r % WORD_LENGTH == 0
    ensures r <= offset < r + WORD_LENGTH
  {
    RoundDownToWord(offset);
    PyInt.BitAnd(offset, WORD_MASK)
  }

  /** `MMIO(base_addr, length)`: reject negative arguments, align the range,
      and map it. The mapping fails when it would be empty or would run past
      the end of physical memory. */
  function Construct(address: int, length: int, phys: seq<byte>): (r: Result<Mmio>)
    ensures r == Err(NegativeArgument) <==> address < 0 || length < 0
    ensures r.Err? ==> r.error == NegativeArgument || r.error == MappingFailure
    ensures address >= 0 && length >= 0 ==>
              (r.Ok? <==> PageBase(address) < AlignedStop(address + length) <= |phys|)
  {
    if address < 0 || length < 0 then
      Err(NegativeArgument)
    else
      var base := PageBase(address);
      var baseOffset := address - base;
      var stop := AlignedStop(address + length);
      var mapped := stop - base;
      if mapped == 0 || base + mapped > |phys| then
        Err(MappingFailure)
      else
        Ok(Mmio(base, baseOffset, mapped, phys[base .. base + mapped]))
  }

  /** A constructed region is well formed. Its base is the page boundary at
      or below the address, its base offset is the distance from there to the
      address, and its mapped length covers the base offset and the request
      with fewer than four bytes to spare, and with none when the stop is
      word-aligned. Its mapping holds the physical bytes at its base. */
  lemma ConstructedRegion(address: int, length: int, phys: seq<byte>, m: Mmio)
    requires Construct(address, length, phys) == Ok(m)
    ensures Valid(m)
    ensures m.baseAddr <= address < m.baseAddr + PAGESIZE
    ensures m.baseAddrOffset == address - m.baseAddr
    ensures m.baseAddrOffset + length <= m.length < m.baseAddrOffset + length + WORD_LENGTH
    ensures (address + length) % WORD_LENGTH == 0 ==> m.length == m.baseAddrOffset + length
    ensures m.baseAddr + m.length <= |phys|
    ensures m.mem == phys[m.baseAddr .. m.baseAddr + m.length]
  {
    MappedLengthIsWords(address, length);
  }

  /** Where `read(offset)` seeks: the base offset rounded down to a word,
      plus the offset. */
  function ReadPosition(m: Mmio, offset: nat): (r: nat)
    ensures r == m.baseAddrOffset - m.baseAddrOffset % WORD_LENGTH + offset
    ensures offset <= r <= m.baseAddrOffset + offset
  {
    WordBase(m.baseAddrOffset) + offset
  }

  /** Where `write(offset)` seeks: the offset, already shifted by the base
      offset, plus the base offset rounded down to a word once more. The
      position is a word boundary whenever the shifted offset is one. */
  function WritePosition(m: Mmio, offset: nat): (r: nat)
    ensures r == m.baseAddrOffset - m.baseAddrOffset % WORD_LENGTH + m.baseAddrOffset + offset
    ensures r == ReadPosition(m, offset) + m.baseAddrOffset
    ensures (offset + m.baseAddrOffset) % WORD_LENGTH == 0 ==> r % WORD_LENGTH == 0
  {
    var w := WordBase(m.baseAddrOffset);
    assert (offset + m.baseAddrOffset) % WORD_LENGTH == 0 ==> (w + (offset + m.baseAddrOffset)) % WORD_LENGTH == 0 by {
      if (offset + m.baseAddrOffset) % WORD_LENGTH == 0 {
        WordSum(w, offset + m.baseAddrOffset);
      }
    }
    w + (offset + m.baseAddrOffset)
  }

  /** The sum of two word boundaries is a word boundary. */
  lemma WordSum(a: nat, b: nat)
    requires a % WORD_LENGTH == 0 && b % WORD_LENGTH == 0
    ensures (a + b) % WORD_LENGTH == 0
  {
  }

  function Min(a: int, b: int): int {
    if a < b then a else b
  }

  /** `read(offset, length)`: check the arguments against the region, seek,
      read up to `length` bytes and unpack them as one word. Unpacking
      needs exactly four bytes, so a length other than 4 only succeeds when
      the read is cut short to four bytes by the end of the mapping. */
  function Read(m: Mmio, offset: int, length: int): (r: Result<nat>)
    ensures r == Err(NegativeArgument) <==> offset < 0 || length < 0
    ensures r == Err(ExceedsLength) <==> 0 <= offset && 0 <= length && offset + length > m.length
    ensures r.Err? ==> r.error in {NegativeArgument, ExceedsLength, BufferFailure, ConversionFailure}
    ensures r.Ok? ==> && 0 <= offset && 4 <= length && offset + length <= m.length
                      && ReadPosition(m, offset) + WORD_LENGTH <= |m.mem|
                      && (length == WORD_LENGTH || ReadPosition(m, offset) + WORD_LENGTH == |m.mem|)
                      && r.value < WORD_LIMIT
                      && Pack32(r.value) == m.mem[ReadPosition(m, offset) .. ReadPosition(m, offset) + WORD_LENGTH]
    ensures (&& 0 <= offset && length == WORD_LENGTH && offset + length <= m.length
             && ReadPosition(m, offset) + WORD_LENGTH <= |m.mem|) ==> r.Ok?
  {
    if offset < 0 || length < 0 then
      Err(NegativeArgument)
    else if offset + length > m.length then
      Err(ExceedsLength)
    else
      var pos := ReadPosition(m, offset);
      if pos > |m.mem| then
        Err(BufferFailure)
      else
        var got := m.mem[pos .. pos + Min(length, |m.mem| - pos)];
        if |got| != WORD_LENGTH then
          Err(ConversionFailure)
        else
          Ok(Unpack32(got))
  }

  /** Data `write` accepts past its type and range checks. */
  predicate Accepted(data: Data) {
    match data
    case Int(v) => v <= WORD_LIMIT - 1
    case Str(_) => true
    case Bytes(_) => true
    case Other => false
  }

  /** The number of bytes `write` accounts for: a word for an int, the
      length of a str or bytes. */
  function WriteLength(data: Data): nat
    requires Accepted(data)
  {
    match data
    case Int(_) => WORD_LENGTH
    case Str(s) => |s|
    case Bytes(b) => |b|
  }

  /** The bytes a byte sequence occupies once written word by word: itself,
      padded with zeros up to a whole number of words. */
  function Padded(data: seq<byte>): (r: seq<byte>)
    ensures |r| % WORD_LENGTH == 0
    ensures |data| <= |r| < |data| + WORD_LENGTH
  {
    data + Zeros((WORD_LENGTH - |data| % WORD_LENGTH) % WORD_LENGTH)
  }

  /** The padding keeps the sequence and adds only zeros. */
  lemma PaddedContents(data: seq<byte>)
    ensures Padded(data)[..|data|] == data
    ensures Padded(data)[|data|..] == Zeros(|Padded(data)| - |data|)
  {
  }

  /** The loop over `range(0, length, MMIO_WORD_LENGTH)`: each slice of at
      most four bytes is read as a little-endian integer and written as one
      packed word at the cursor, which then advances by a word. A word that
      does not fit raises, keeping the words already written. */
  function WriteChunks(mem: seq<byte>, pos: nat, data: seq<byte>): (r: WriteOutcome)
    ensures |r.mem| == |mem|
    ensures r.Raised? ==> r.error == BufferFailure
    decreases |data|
  {
    if |data| == 0 then
      Written(mem)
    else
      var chunk := data[..Min(WORD_LENGTH, |data|)];
      PackChunk(chunk);
      if pos + WORD_LENGTH > |mem| then
        Raised(BufferFailure, mem)
      else
        WriteChunks(Splice(mem, pos, Pack32(LeValue(chunk))), pos + WORD_LENGTH, data[|chunk|..])
  }

  /** The transfer of a single word, taken whenever the data accounts for
      exactly four bytes. Formatting the trace line calls `hex(data)`, which
      raises for a str or bytes; packing raises for a negative int. */
  function WriteWord(mem: seq<byte>, pos: nat, data: Data): (r: WriteOutcome)
    requires Accepted(data)
    ensures |r.mem| == |mem|
    ensures r.Raised? ==> r.mem == mem
    ensures r.Written? ==> data.Int? && 0 <= data.i && pos + WORD_LENGTH <= |mem|
    ensures r.Written? ==> r.mem[pos .. pos + WORD_LENGTH] == Pack32(data.i)
  {
    match data
    case Int(v) =>
      if v < 0 then Raised(ConversionFailure, mem)
      else if pos + WORD_LENGTH > |mem| then Raised(BufferFailure, mem)
      else Written(Splice(mem, pos, Pack32(v)))
    case _ => Raised(ConversionFailure, mem)
  }

  /** The transfer of a str or bytes whose length is not 4. A non-empty str
      raises in `int.from_bytes` before anything is written; an empty one
      writes nothing. */
  function WriteSequence(mem: seq<byte>, pos: nat, data: Data): (r: WriteOutcome)
    requires data.Str? || data.Bytes?
    ensures |r.mem| == |mem|
    ensures data.Str? ==> r.mem == mem
    ensures data.Str? && r.Written? ==> data.s == []
    ensures data.Bytes? && r.Raised? ==> r.error == BufferFailure
  {
    if data.Bytes? then WriteChunks(mem, pos, data.b)
    else if |data.s| == 0 then Written(mem)
    else Raised(ConversionFailure, mem)
  }

  /** The outcome of the checks `write` makes before it seeks. */
  datatype Check = Pass | Fail(error: Error)

  /** The checks of `write`, in the order it makes them: the offset, the
      value or type of the data, the range, and then the alignment of the
      offset once shifted by the base offset. */
  function CheckWrite(m: Mmio, offset: int, data: Data): (c: Check)
    ensures c.Pass? <==> && 0 <= offset && Accepted(data)
                         && offset + WriteLength(data) <= m.length
                         && (offset + m.baseAddrOffset) % WORD_LENGTH == 0
    ensures offset < 0 ==> c == Fail(NegativeArgument)
    ensures 0 <= offset && data.Int? && data.i > WORD_LIMIT - 1 ==> c == Fail(ValueTooLarge)
    ensures 0 <= offset && data.Other? ==> c == Fail(UnsupportedType)
    ensures 0 <= offset && Accepted(data) && offset + WriteLength(data) > m.length ==>
              c == Fail(ExceedsLength)
    ensures (&& 0 <= offset && Accepted(data) && offset + WriteLength(data) <= m.length
             && (offset + m.baseAddrOffset) % WORD_LENGTH != 0) ==> c == Fail(NotAligned)
  {
    if offset < 0 then
      Fail(NegativeArgument)
    else if data.Int? && data.i > WORD_LIMIT - 1 then
      Fail(ValueTooLarge)
    else if data.Other? then
      Fail(UnsupportedType)
    else if offset + WriteLength(data) > m.length then
      Fail(ExceedsLength)
    else
      var shifted := offset + m.baseAddrOffset;
      PyInt.BitAndKeepsLowBits(shifted, 2);
      if PyInt.BitAnd(shifted, PyInt.BitNot(WORD_MASK)) != 0 then
        Fail(NotAligned)
      else
        Pass
  }

  /** Seek to a position and transfer the data: one word when the data
      accounts for four bytes, word by word otherwise. */
  function Transfer(mem: seq<byte>, pos: nat, data: Data): (r: WriteOutcome)
    requires Accepted(data)
    ensures |r.mem| == |mem|
    ensures r.Raised? && r.error != BufferFailure ==> r.mem == mem
    ensures r.Written? ==> pos <= |mem|
    ensures r.Written? && WriteLength(data) == WORD_LENGTH ==>
              && data.Int? && 0 <= data.i && pos + WORD_LENGTH <= |mem|
              && r.mem[pos .. pos + WORD_LENGTH] == Pack32(data.i)
  {
    if pos > |mem| then
      Raised(BufferFailure, mem)
    else if WriteLength(data) == WORD_LENGTH then
      WriteWord(mem, pos, data)
    else
      WriteSequence(mem, pos, data)
  }

  /** `write(offset, data)`: the checks, then the transfer at the position
      reached by adding the base offset to the offset and then the base offset
      rounded down to a word once more. */
  function Write(m: Mmio, offset: int, data: Data): (r: WriteOutcome)
    ensures |r.mem| == |m.mem|
    ensures offset < 0 ==> r == Raised(NegativeArgument, m.mem)
    ensures 0 <= offset && data.Int? && data.i > WORD_LIMIT - 1 ==> r == Raised(ValueTooLarge, m.mem)
    ensures 0 <= offset && data.Other? ==> r == Raised(UnsupportedType, m.mem)
    ensures 0 <= offset && Accepted(data) && offset + WriteLength(data) > m.length ==>
              r == Raised(ExceedsLength, m.mem)
    ensures (&& 0 <= offset && Accepted(data) && offset + WriteLength(data) <= m.length
             && (offset + m.baseAddrOffset) % WORD_LENGTH != 0) ==> r == Raised(NotAligned, m.mem)
    ensures r.Written? ==> && 0 <= offset && Accepted(data)
                           && offset + WriteLength(data) <= m.length
                           && (offset + m.baseAddrOffset) % WORD_LENGTH == 0
    ensures r.Raised? && r.error != BufferFailure ==> r.mem == m.mem
  {
    match CheckWrite(m, offset, data)
    case Fail(e) => Raised(e, m.mem)
    case Pass => Transfer(m.mem, WritePosition(m, offset), data)
  }
}
