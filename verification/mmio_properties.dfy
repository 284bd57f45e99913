/** What the MMIO region promises across calls: the effect of a successful
    write on the mapping, the failures that leave it untouched, and the
    round trip from `write` to `read`. */
module MmioProperties {

  import opened Words
  import opened Mmio

  /** The bytes of a mapping that fit whole words in `room` bytes. */
  function Fit(room: nat): (r: nat)
    ensures r % WORD_LENGTH == 0 && r <= room < r + WORD_LENGTH
  {
    room / WORD_LENGTH * WORD_LENGTH
  }

  lemma SpliceNothing(mem: seq<byte>, pos: nat)
    requires pos <= |mem|
    ensures Splice(mem, pos, []) == mem
  {
    assert mem[..pos] + mem[pos..] == mem;
  }

  /** Two adjacent splices are one splice of the concatenation. */
  lemma SpliceTwice(mem: seq<byte>, pos: nat, a: seq<byte>, b: seq<byte>)
    requires pos + |a| + |b| <= |mem|
    ensures Splice(Splice(mem, pos, a), pos + |a|, b) == Splice(mem, pos, a + b)
  {
    var once := Splice(mem, pos, a);
    assert once[..pos + |a|] == mem[..pos] + a;
    assert once[pos + |a| + |b|..] == mem[pos + |a| + |b|..];
  }

  /** Padding a byte sequence is padding its first chunk of at most a word,
      then the rest. */
  lemma PaddedSplit(data: seq<byte>)
    requires |data| > 0
    ensures var c := data[..Min(WORD_LENGTH, |data|)];
            Padded(data) == c + Zeros(WORD_LENGTH - |c|) + Padded(data[|c|..])
  {
    var c := data[..Min(WORD_LENGTH, |data|)];
    var rest := data[|c|..];
    var z := (WORD_LENGTH - |data| % WORD_LENGTH) % WORD_LENGTH;
    assert Padded(data) == data + Zeros(z);
    if |data| >= WORD_LENGTH {
      assert |rest| % WORD_LENGTH == |data| % WORD_LENGTH;
      assert Padded(rest) == rest + Zeros(z);
      assert Zeros(WORD_LENGTH - |c|) == [];
      assert c + [] + (rest + Zeros(z)) == (c + rest) + Zeros(z);
      assert data == c + rest;
    } else {
      assert c == data && rest == [];
      assert Padded(rest) == [] by {
        assert Padded(rest) == rest + Zeros(0);
      }
      assert z == WORD_LENGTH - |c|;
    }
  }

  lemma PrefixOfConcat(w: seq<byte>, tail: seq<byte>, k: nat)
    requires |w| <= k <= |w| + |tail|
    ensures (w + tail)[..k] == w + tail[..k - |w|]
  {
  }

  /** One turn of the loop that writes a byte sequence, when its word fits:
      the first chunk's word is stored and the loop goes on with the rest. */
  lemma WriteChunksStep(mem: seq<byte>, pos: nat, data: seq<byte>)
    requires |data| > 0 && pos + WORD_LENGTH <= |mem|
    ensures |Padded(data)| == WORD_LENGTH + |Padded(data[Min(WORD_LENGTH, |data|)..])|
    ensures Padded(data) == Padded(data)[..WORD_LENGTH] + Padded(data[Min(WORD_LENGTH, |data|)..])
    ensures WriteChunks(mem, pos, data)
            == WriteChunks(Splice(mem, pos, Padded(data)[..WORD_LENGTH]), pos + WORD_LENGTH,
                           data[Min(WORD_LENGTH, |data|)..])
  {
    var c := data[..Min(WORD_LENGTH, |data|)];
    PackChunk(c);
    PaddedSplit(data);
    assert Padded(data)[..WORD_LENGTH] == Pack32(LeValue(c));
  }

  /** The loop that writes a byte sequence stores all of it, zero-padded
      to whole words, at the cursor when it fits. */
  lemma {:induction false} WriteChunksStores(mem: seq<byte>, pos: nat, data: seq<byte>)
    requires pos + |Padded(data)| <= |mem|
    ensures WriteChunks(mem, pos, data) == Written(Splice(mem, pos, Padded(data)))
    decreases |data|
  {
    if |data| == 0 {
      assert Padded(data) == [];
      SpliceNothing(mem, pos);
    } else {
      var rest := data[Min(WORD_LENGTH, |data|)..];
      WriteChunksStep(mem, pos, data);
      var w := Padded(data)[..WORD_LENGTH];
      WriteChunksStores(Splice(mem, pos, w), pos + WORD_LENGTH, rest);
      SpliceTwice(mem, pos, w, Padded(rest));
    }
  }

  /** When the padded sequence does not fit, the loop raises having stored
      exactly the n whole words that fit between the cursor and the end. */
  lemma {:induction false} WriteChunksStops(mem: seq<byte>, pos: nat, data: seq<byte>, n: nat)
    requires pos + n * WORD_LENGTH <= |mem| < pos + n * WORD_LENGTH + WORD_LENGTH
    requires n * WORD_LENGTH < |Padded(data)|
    ensures WriteChunks(mem, pos, data)
            == Raised(BufferFailure, Splice(mem, pos, Padded(data)[..n * WORD_LENGTH]))
    decreases n
  {
    assert |data| > 0;
    if n == 0 {
      assert WriteChunks(mem, pos, data) == Raised(BufferFailure, mem);
      assert Padded(data)[..0] == [];
      SpliceNothing(mem, pos);
    } else {
      var k := n * WORD_LENGTH;
      var rest := data[Min(WORD_LENGTH, |data|)..];
      var w := Padded(data)[..WORD_LENGTH];
      var mem' := Splice(mem, pos, w);
      assert |Padded(data)| == WORD_LENGTH + |Padded(rest)| && Padded(data) == w + Padded(rest) by {
        WriteChunksStep(mem, pos, data);
      }
      assert WriteChunks(mem, pos, data) == WriteChunks(mem', pos + WORD_LENGTH, rest) by {
        WriteChunksStep(mem, pos, data);
      }
      var stored := Splice(mem', pos + WORD_LENGTH, Padded(rest)[..k - WORD_LENGTH]);
      assert WriteChunks(mem', pos + WORD_LENGTH, rest) == Raised(BufferFailure, stored) by {
        assert k - WORD_LENGTH == (n - 1) * WORD_LENGTH;
        WriteChunksStops(mem', pos + WORD_LENGTH, rest, n - 1);
      }
      assert stored == Splice(mem, pos, Padded(data)[..k]) by {
        assert Padded(data)[..k] == w + Padded(rest)[..k - WORD_LENGTH] by {
          PrefixOfConcat(w, Padded(rest), k);
        }
        SpliceTwice(mem, pos, w, Padded(rest)[..k - WORD_LENGTH]);
      }
    }
  }

  /** What storing a byte sequence word by word at a position does to a
      mapping, stated directly: nothing but an error when the position is
      past the end; the whole sequence, zero-padded to whole words, when
      that fits; otherwise the whole words that fit, followed by an error. */
  function StoreBytes(mem: seq<byte>, pos: nat, b: seq<byte>): WriteOutcome {
    if pos > |mem| then
      Raised(BufferFailure, mem)
    else if pos + |Padded(b)| <= |mem| then
      Written(Splice(mem, pos, Padded(b)))
    else
      Raised(BufferFailure, Splice(mem, pos, Padded(b)[..Fit(|mem| - pos)]))
  }

  /** The loop that writes a byte sequence, from a position inside the
      mapping, has the effect StoreBytes describes. */
  lemma WriteChunksEffect(mem: seq<byte>, pos: nat, data: seq<byte>)
    requires pos <= |mem|
    ensures WriteChunks(mem, pos, data) == StoreBytes(mem, pos, data)
  {
    if pos + |Padded(data)| <= |mem| {
      WriteChunksStores(mem, pos, data);
    } else {
      WriteChunksStops(mem, pos, data, (|mem| - pos) / WORD_LENGTH);
    }
  }

  /** A write of a word that passes the checks stores its four
      little-endian bytes at the write position and changes nothing else,
      or raises without a change when they do not fit the mapping. */
  lemma WriteWordEffect(m: Mmio, offset: nat, v: nat)
    requires v < WORD_LIMIT
    requires offset + WORD_LENGTH <= m.length
    requires (offset + m.baseAddrOffset) % WORD_LENGTH == 0
    ensures WritePosition(m, offset) + WORD_LENGTH <= |m.mem| ==>
              Write(m, offset, Int(v)) == Written(Splice(m.mem, WritePosition(m, offset), Pack32(v)))
    ensures WritePosition(m, offset) + WORD_LENGTH > |m.mem| ==>
              Write(m, offset, Int(v)) == Raised(BufferFailure, m.mem)
  {
  }

  /** The transfer of a byte sequence whose length is not 4 seeks and then
      runs the loop: its effect is StoreBytes at the position. */
  lemma TransferBytesEffect(mem: seq<byte>, pos: nat, b: seq<byte>)
    requires |b| != WORD_LENGTH
    ensures Transfer(mem, pos, Bytes(b)) == StoreBytes(mem, pos, b)
  {
    if pos <= |mem| {
      assert Transfer(mem, pos, Bytes(b)) == WriteChunks(mem, pos, b);
      WriteChunksEffect(mem, pos, b);
    }
  }

  /** A write of a byte sequence whose length is not 4 that passes the
      checks has the effect StoreBytes describes at the write position. */
  lemma WriteBytesEffect(m: Mmio, offset: nat, b: seq<byte>)
    requires |b| != WORD_LENGTH
    requires offset + |b| <= m.length
    requires (offset + m.baseAddrOffset) % WORD_LENGTH == 0
    ensures Write(m, offset, Bytes(b)) == StoreBytes(m.mem, WritePosition(m, offset), b)
  {
    var pos := WritePosition(m, offset);
    assert Write(m, offset, Bytes(b)) == Transfer(m.mem, pos, Bytes(b)) by {
      assert CheckWrite(m, offset, Bytes(b)).Pass? by {
        assert Accepted(Bytes(b)) && WriteLength(Bytes(b)) == |b|;
      }
    }
    TransferBytesEffect(m.mem, pos, b);
  }

  /** Writing, whether it returns or raises, keeps a constructed region
      well formed: the mapping keeps its length and the geometry is
      untouched. */
  lemma WriteKeepsValid(m: Mmio, offset: int, data: Data)
    requires Valid(m)
    ensures Valid(m.(mem := Write(m, offset, data).mem))
  {
  }

  /** The largest word, 2**32 - 1, passes the value check. */
  lemma LargestWordAccepted(m: Mmio, offset: int)
    ensures Write(m, offset, Int(WORD_LIMIT - 1)).Raised? ==>
              Write(m, offset, Int(WORD_LIMIT - 1)).error != ValueTooLarge
  {
  }

  /** A negative int passes the value check but never reaches the mapping:
      packing it raises if nothing else does first. */
  lemma NegativeIntNeverStored(m: Mmio, offset: int, v: int)
    requires v < 0
    ensures Write(m, offset, Int(v)).Raised?
    ensures Write(m, offset, Int(v)).mem == m.mem
    ensures (&& 0 <= offset && offset + WORD_LENGTH <= m.length
             && (offset + m.baseAddrOffset) % WORD_LENGTH == 0
             && WritePosition(m, offset) <= |m.mem|) ==>
              Write(m, offset, Int(v)).error == ConversionFailure
  {
  }

  /** A byte sequence of exactly four bytes takes the single-word path and
      always raises, leaving the mapping as it was. */
  lemma FourBytesNeverStored(m: Mmio, offset: int, b: seq<byte>)
    requires |b| == WORD_LENGTH
    ensures Write(m, offset, Bytes(b)).Raised?
    ensures Write(m, offset, Bytes(b)).mem == m.mem
  {
  }

  /** A str never changes the mapping, and a write of one only returns
      normally when it is empty. */
  lemma StrNeverStored(m: Mmio, offset: int, s: string)
    ensures Write(m, offset, Str(s)).mem == m.mem
    ensures Write(m, offset, Str(s)).Written? ==> s == []
  {
  }

  /** A read of four bytes inside both the region and the mapping returns
      the little-endian value of the four bytes at the read position. */
  lemma ReadWordValue(m: Mmio, offset: nat)
    requires offset + WORD_LENGTH <= m.length
    requires ReadPosition(m, offset) + WORD_LENGTH <= |m.mem|
    ensures var at := ReadPosition(m, offset);
            Read(m, offset, WORD_LENGTH) == Ok(LeValue(m.mem[at .. at + WORD_LENGTH]))
  {
    var at := ReadPosition(m, offset);
    var r := Read(m, offset, WORD_LENGTH);
    assert Pack32(r.value) == m.mem[at .. at + WORD_LENGTH];
  }

  /** With a zero base offset, writing a word at an aligned offset inside
      the region and reading four bytes back at that offset yields the
      word. */
  lemma WriteThenReadWord(m: Mmio, offset: nat, v: nat)
    requires |m.mem| == m.length && m.baseAddrOffset == 0
    requires offset % WORD_LENGTH == 0 && offset + WORD_LENGTH <= m.length
    requires v < WORD_LIMIT
    ensures Write(m, offset, Int(v)).Written?
    ensures Read(m.(mem := Write(m, offset, Int(v)).mem), offset, WORD_LENGTH) == Ok(v)
  {
    assert WritePosition(m, offset) == offset;
    WriteWordEffect(m, offset, v);
    var m' := m.(mem := Write(m, offset, Int(v)).mem);
    assert m'.mem[offset .. offset + WORD_LENGTH] == Pack32(v);
    assert ReadPosition(m', offset) == offset;
    ReadWordValue(m', offset);
  }

  /** A byte-sequence write that returns normally has stored the whole
      padded sequence at the write position. */
  lemma WriteBytesStored(m: Mmio, offset: int, b: seq<byte>, mem': seq<byte>)
    requires |b| != WORD_LENGTH
    requires Write(m, offset, Bytes(b)) == Written(mem')
    ensures offset >= 0
    ensures WritePosition(m, offset) + |Padded(b)| <= |m.mem|
    ensures mem' == Splice(m.mem, WritePosition(m, offset), Padded(b))
  {
    WriteBytesEffect(m, offset, b);
  }

  /** With a zero base offset, after a byte sequence has been written every
      word it covers reads back as the little-endian value of the
      corresponding four padded bytes. */
  lemma WriteBytesThenReadWords(m: Mmio, offset: nat, b: seq<byte>, mem': seq<byte>, at: nat)
    requires |m.mem| == m.length && m.baseAddrOffset == 0
    requires |b| != WORD_LENGTH
    requires Write(m, offset, Bytes(b)) == Written(mem')
    requires at % WORD_LENGTH == 0 && at + WORD_LENGTH <= |Padded(b)|
    ensures Read(m.(mem := mem'), offset + at, WORD_LENGTH)
            == Ok(LeValue(Padded(b)[at .. at + WORD_LENGTH]))
  {
    assert mem'[offset + at .. offset + at + WORD_LENGTH] == Padded(b)[at .. at + WORD_LENGTH] by {
      assert WritePosition(m, offset) == offset;
      WriteBytesStored(m, offset, b, mem');
      WordOfSplice(m.mem, offset, Padded(b), at);
    }
    var m' := m.(mem := mem');
    assert ReadPosition(m', offset + at) == offset + at;
    ReadWordValue(m', offset + at);
  }

  /** The word at a given place inside spliced-in bytes. */
  lemma WordOfSplice(mem: seq<byte>, pos: nat, bs: seq<byte>, at: nat)
    requires pos + |bs| <= |mem| && at + WORD_LENGTH <= |bs|
    ensures Splice(mem, pos, bs)[pos + at .. pos + at + WORD_LENGTH] == bs[at .. at + WORD_LENGTH]
  {
    var r := Splice(mem, pos, bs);
    assert r[pos .. pos + |bs|] == bs;
    assert r[pos + at .. pos + at + WORD_LENGTH] == r[pos .. pos + |bs|][at .. at + WORD_LENGTH];
  }

  /** A four-byte read looks at nothing but the word at its position. */
  lemma ReadOnlySeesItsWord(m: Mmio, mem': seq<byte>, offset: nat)
    requires |mem'| == |m.mem|
    requires ReadPosition(m, offset) + WORD_LENGTH <= |m.mem|
    requires mem'[ReadPosition(m, offset) .. ReadPosition(m, offset) + WORD_LENGTH]
             == m.mem[ReadPosition(m, offset) .. ReadPosition(m, offset) + WORD_LENGTH]
    ensures Read(m.(mem := mem'), offset, WORD_LENGTH) == Read(m, offset, WORD_LENGTH)
  {
    assert ReadPosition(m.(mem := mem'), offset) == ReadPosition(m, offset);
  }

  /** With a word-aligned base offset other than zero, a successful word
      write lands a whole base offset past the word that `read` at the same
      offset looks at, so that read still returns what was there before. */
  lemma WriteMissesReadWord(m: Mmio, offset: nat, v: nat)
    requires m.baseAddrOffset > 0 && m.baseAddrOffset % WORD_LENGTH == 0
    requires Write(m, offset, Int(v)).Written?
    ensures WritePosition(m, offset) == ReadPosition(m, offset) + m.baseAddrOffset
    ensures Read(m.(mem := Write(m, offset, Int(v)).mem), offset, WORD_LENGTH)
            == Read(m, offset, WORD_LENGTH)
  {
    var rp, wp := ReadPosition(m, offset), WritePosition(m, offset);
    WriteWordEffect(m, offset, v);
    var mem' := Write(m, offset, Int(v)).mem;
    assert wp + WORD_LENGTH <= |m.mem|;
    assert mem' == Splice(m.mem, wp, Pack32(v));
    assert rp + WORD_LENGTH <= wp;
    assert mem'[rp .. rp + WORD_LENGTH] == m.mem[rp .. rp + WORD_LENGTH];
    ReadOnlySeesItsWord(m, mem', offset);
  }

  /** A region asked for at 0x1000 with length 4 is one word at the start of
      a page; 0xDEADBEEF written at offset 0 reads back from offset 0. */
  lemma PageAlignedWordScenario(phys: seq<byte>)
    requires |phys| >= 0x1004
    ensures Construct(0x1000, 4, phys).Ok?
    ensures var m := Construct(0x1000, 4, phys).value;
            && m.baseAddr == 0x1000 && m.baseAddrOffset == 0 && m.length == 4
            && Write(m, 0, Int(0xDEAD_BEEF)).Written?
            && Read(m.(mem := Write(m, 0, Int(0xDEAD_BEEF)).mem), 0, WORD_LENGTH) == Ok(0xDEAD_BEEF)
  {
    assert PageBase(0x1000) == 0x1000;
    assert AlignedStop(0x1004) == 0x1004;
    var m := Construct(0x1000, 4, phys).value;
    WriteThenReadWord(m, 0, 0xDEAD_BEEF);
  }
}
