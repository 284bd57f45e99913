/** Bytes and 32-bit words as the MMIO transfers see them: Python's
    `int.from_bytes(..., byteorder='little')`, `struct.pack('I', v)` and
    `struct.unpack('I', b)`. The native byte order of format 'I' is fixed to
    little-endian here. */
module Words {

  import PyInt

  /** One byte of the mapping. */
  newtype byte = x: int | 0 <= x < 256

  /** Number of bytes in one bus word (the MMIO word length). */
  const WORD_LENGTH: nat := 4

  /** One more than the largest value a word holds, 2**32. */
  const WORD_LIMIT: nat := 0x1_0000_0000

  /** 256 to the power n: one more than the largest value n bytes hold. */
  function Pow256(n: nat): (r: nat)
    ensures r >= 1
  {
    if n == 0 then 1 else 256 * Pow256(n - 1)
  }

  /** `int.from_bytes(bs, byteorder='little')`: the first byte is the least
      significant. */
  function LeValue(bs: seq<byte>): (r: nat)
    ensures r < Pow256(|bs|)
  {
    if |bs| == 0 then 0 else bs[0] as nat + 256 * LeValue(bs[1..])
  }

  /** The n-byte little-endian encoding of v, which drops whatever of v
      does not fit in n bytes. */
  function LeBytes(v: nat, n: nat): (r: seq<byte>)
    ensures |r| == n
  {
    if n == 0 then [] else [(v % 256) as byte] + LeBytes(v / 256, n - 1)
  }

  /** Splitting x into its low byte and the rest. */
  lemma SplitByte(x: nat, lo: nat, hi: nat)
    requires x == lo + 256 * hi && lo < 256
    ensures x % 256 == lo && x / 256 == hi
  {
    PyInt.ModUnique(x, 256, hi, lo);
  }

  /** Decoding an encoding that has room for the value gives the value
      back. */
  lemma {:induction false} LeValueOfLeBytes(v: nat, n: nat)
    requires v < Pow256(n)
    ensures LeValue(LeBytes(v, n)) == v
  {
    if n > 0 {
      var r := LeBytes(v, n);
      assert r[1..] == LeBytes(v / 256, n - 1);
      LeValueOfLeBytes(v / 256, n - 1);
    }
  }

  /** Encoding the value of some bytes in as many bytes gives them back. */
  lemma {:induction false} LeBytesOfLeValue(bs: seq<byte>)
    ensures LeBytes(LeValue(bs), |bs|) == bs
  {
    if |bs| > 0 {
      var v := LeValue(bs);
      SplitByte(v, bs[0] as nat, LeValue(bs[1..]));
      LeBytesOfLeValue(bs[1..]);
      assert LeBytes(v, |bs|) == [bs[0]] + bs[1..];
    }
  }

  /** `struct.pack('I', v)` for a value that fits in a word: four bytes,
      least significant first. */
  function Pack32(v: nat): (r: seq<byte>)
    requires v < WORD_LIMIT
    ensures |r| == WORD_LENGTH
    ensures LeValue(r) == v
  {
    assert Pow256(WORD_LENGTH) == WORD_LIMIT;
    LeValueOfLeBytes(v, WORD_LENGTH);
    LeBytes(v, WORD_LENGTH)
  }

  /** `struct.unpack('I', bs)[0]` for exactly four bytes. It inverts Pack32. */
  function Unpack32(bs: seq<byte>): (r: nat)
    requires |bs| == WORD_LENGTH
    ensures r < WORD_LIMIT
    ensures Pack32(r) == bs
  {
    assert Pow256(WORD_LENGTH) == WORD_LIMIT;
    LeBytesOfLeValue(bs);
    LeValue(bs)
  }

  /** n zero bytes. */
  function Zeros(n: nat): (r: seq<byte>)
    ensures |r| == n
  {
    seq(n, _ => 0)
  }

  /** Trailing zero bytes do not change a little-endian value. */
  lemma {:induction false} LeValueZeroExtend(bs: seq<byte>, n: nat)
    ensures LeValue(bs + Zeros(n)) == LeValue(bs)
  {
    if |bs| == 0 {
      LeValueOfZeros(n);
      assert bs + Zeros(n) == Zeros(n);
    } else {
      assert (bs + Zeros(n))[1..] == bs[1..] + Zeros(n);
      LeValueZeroExtend(bs[1..], n);
    }
  }

  lemma {:induction false} LeValueOfZeros(n: nat)
    ensures LeValue(Zeros(n)) == 0
  {
    if n > 0 {
      assert Zeros(n)[1..] == Zeros(n - 1);
      LeValueOfZeros(n - 1);
    }
  }

  /** A chunk of at most four bytes, read as a little-endian integer and
      packed back into a word, becomes the chunk followed by zero padding. */
  lemma PackChunk(chunk: seq<byte>)
    requires |chunk| <= WORD_LENGTH
    ensures LeValue(chunk) < WORD_LIMIT
    ensures Pack32(LeValue(chunk)) == chunk + Zeros(WORD_LENGTH - |chunk|)
  {
    var w := chunk + Zeros(WORD_LENGTH - |chunk|);
    LeValueZeroExtend(chunk, WORD_LENGTH - |chunk|);
    assert Pow256(WORD_LENGTH) == WORD_LIMIT;
    LeBytesOfLeValue(w);
  }

  /** `mem[pos:pos+len(bs)] = bs`: the bytes at pos are replaced by bs and
      every other byte is kept. */
  function Splice(mem: seq<byte>, pos: nat, bs: seq<byte>): (r: seq<byte>)
    requires pos + |bs| <= |mem|
    ensures |r| == |mem|
    ensures r[pos..pos + |bs|] == bs
    ensures r[..pos] == mem[..pos]
    ensures r[pos + |bs|..] == mem[pos + |bs|..]
  {
    mem[..pos] + bs + mem[pos + |bs|..]
  }
}
