/** A write adds the base offset to its offset, and then, when seeking, adds
    the base offset rounded down to a word a second time; `read` adds only
    the rounded-down base offset. This module sets the `write` of the source
    beside a `write` that lands on the requested address, shows an input on
    which the two differ, and proves the round trip for the corrected one
    whenever the base offset is a whole number of words. */
module MmioFindings {

  import opened Words
  import opened Mmio
  import MmioProperties

  /** The mapping byte of the requested address plus an offset: the base
      offset added once. */
  function RequestedPosition(m: Mmio, offset: nat): (r: nat)
    ensures r == WritePosition(m, offset) - WordBase(m.baseAddrOffset)
    ensures m.baseAddrOffset % WORD_LENGTH == 0 ==> r == ReadPosition(m, offset)
  {
    m.baseAddrOffset + offset
  }

  /** `write` with the base offset added once: the same checks, then the
      transfer at the requested address. Where the base offset rounds down
      to 0 it is the `write` of the source. */
  function WriteCompensatedOnce(m: Mmio, offset: int, data: Data): (r: WriteOutcome)
    ensures |r.mem| == |m.mem|
    ensures CheckWrite(m, offset, data).Fail? ==> r == Write(m, offset, data)
    ensures r.Written? ==> CheckWrite(m, offset, data).Pass?
    ensures r.Raised? && r.error != BufferFailure ==> r.mem == m.mem
    ensures m.baseAddrOffset < WORD_LENGTH ==> r == Write(m, offset, data)
    ensures (r.Written? && WriteLength(data) == WORD_LENGTH) ==>
              && data.Int? && 0 <= data.i && 0 <= offset
              && (m.baseAddrOffset + offset) % WORD_LENGTH == 0
              && m.baseAddrOffset + offset + WORD_LENGTH <= |m.mem|
              && r.mem[m.baseAddrOffset + offset .. m.baseAddrOffset + offset + WORD_LENGTH] == Pack32(data.i)
  {
    match CheckWrite(m, offset, data)
    case Fail(e) => Raised(e, m.mem)
    case Pass =>
      var pos := RequestedPosition(m, offset);
      assert m.baseAddrOffset < WORD_LENGTH ==> Write(m, offset, data) == Transfer(m.mem, pos, data) by {
        if m.baseAddrOffset < WORD_LENGTH {
          assert WritePosition(m, offset) == pos;
        }
      }
      Transfer(m.mem, pos, data)
  }

  /** With the base offset added once and a base offset that is a whole
      number of words, a word written at an offset whose word lies inside
      the mapping reads back at that offset. */
  lemma CompensatedOnceWriteThenRead(m: Mmio, offset: nat, v: nat, mem': seq<byte>)
    requires v < WORD_LIMIT
    requires m.baseAddrOffset % WORD_LENGTH == 0
    requires offset + WORD_LENGTH <= m.length
    requires offset % WORD_LENGTH == 0
    requires m.baseAddrOffset + offset + WORD_LENGTH <= |m.mem|
    requires mem' == WriteCompensatedOnce(m, offset, Int(v)).mem
    ensures WriteCompensatedOnce(m, offset, Int(v)) == Written(mem')
    ensures Read(m.(mem := mem'), offset, WORD_LENGTH) == Ok(v)
  {
    var at := RequestedPosition(m, offset);
    assert at == ReadPosition(m, offset);
    assert (offset + m.baseAddrOffset) % WORD_LENGTH == 0 by {
      WordSum(offset, m.baseAddrOffset);
    }
    assert WriteCompensatedOnce(m, offset, Int(v)) == Written(Splice(m.mem, at, Pack32(v))) by {
      assert CheckWrite(m, offset, Int(v)).Pass?;
    }
    assert mem'[at .. at + WORD_LENGTH] == Pack32(v);
    var m' := m.(mem := mem');
    assert ReadPosition(m', offset) == at;
    MmioProperties.ReadWordValue(m', offset);
  }

  /** A region asked for at 0x1004 with length 4 maps 0x1000..0x1008 with a
      base offset of 4. Reading offset 0 reads the requested word, but
      writing offset 0 seeks to byte 8, the end of the mapping, and raises;
      with the base offset added once the write lands on byte 4. */
  lemma WriteAtRequestedAddressFails(phys: seq<byte>, v: nat)
    requires |phys| >= 0x1008 && v < WORD_LIMIT
    ensures Construct(0x1004, 4, phys).Ok?
    ensures var m := Construct(0x1004, 4, phys).value;
            && m.baseAddr == 0x1000 && m.baseAddrOffset == 4 && m.length == 8
            && ReadPosition(m, 0) == 4
            && Read(m, 0, WORD_LENGTH).Ok?
            && WritePosition(m, 0) == 8
            && Write(m, 0, Int(v)) == Raised(BufferFailure, m.mem)
            && WriteCompensatedOnce(m, 0, Int(v)) == Written(Splice(m.mem, 4, Pack32(v)))
  {
    assert PageBase(0x1004) == 0x1000;
    assert AlignedStop(0x1008) == 0x1008;
    var m := Construct(0x1004, 4, phys).value;
    assert WordBase(4) == 4;
    MmioProperties.WriteWordEffect(m, 0, v);
  }
}
