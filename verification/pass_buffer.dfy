/** The pass-index uniform buffer of `createBindGroup`: four u32 words, one
    per digit pass, each at its own multiple of the uniform alignment. The
    buffer is a byte sequence; words are stored little-endian as
    `Uint32Array` does on every WebGPU platform. */
module PassBuffer {

  import opened Arith
  import opened Layout

  type byte = x: nat | x < 256

  /** Little-endian bytes of a u32. */
  function EncodeWord(v: u32): (bs: seq<byte>)
    ensures |bs| == BYTES_PER_ELEMENT
  {
    var q1: nat := v / 256;
    var q2: nat := q1 / 256;
    [v % 256, q1 % 256, q2 % 256, q2 / 256]
  }

  /** The four bytes recombine to the word. */
  lemma EncodeWordValue(v: u32)
    ensures var bs: seq<nat> := EncodeWord(v);
      bs[0] + 0x100 * bs[1] + 0x1_0000 * bs[2] + 0x100_0000 * bs[3] == v
  {
    var q1: nat := v / 256;
    var q2: nat := q1 / 256;
    assert v == v % 256 + 256 * q1;
    assert q1 == q1 % 256 + 256 * q2;
    assert q2 == q2 % 256 + 256 * (q2 / 256);
  }

  /** The u32 a uniform binding sees at byte offset `offset`. */
  function ReadWord(buf: seq<byte>, offset: nat): u32
    requires offset + BYTES_PER_ELEMENT <= |buf|
  {
    var b0: nat, b1: nat, b2: nat, b3: nat := buf[offset], buf[offset + 1], buf[offset + 2], buf[offset + 3];
    b0 + 0x100 * b1 + 0x1_0000 * b2 + 0x100_0000 * b3
  }

  /** `queue.writeBuffer(buf, offset, Uint32Array[v])`. */
  function WriteWord(buf: seq<byte>, offset: nat, v: u32): (r: seq<byte>)
    requires offset + BYTES_PER_ELEMENT <= |buf|
    ensures |r| == |buf|
    ensures ReadWord(r, offset) == v
    ensures forall k :: 0 <= k < |buf| && (k < offset || k >= offset + BYTES_PER_ELEMENT) ==> r[k] == buf[k]
  {
    var r := buf[..offset] + EncodeWord(v) + buf[offset + BYTES_PER_ELEMENT..];
    EncodeWordValue(v);
    assert r[offset..offset + BYTES_PER_ELEMENT] == EncodeWord(v);
    r
  }

  /** Slot `i` lies entirely below slot `j` when `i < j`. */
  lemma SlotsApart(i: nat, j: nat, uniformAlign: nat)
    requires uniformAlign >= BYTES_PER_ELEMENT
    requires i < j
    ensures i * uniformAlign + BYTES_PER_ELEMENT <= j * uniformAlign
  {
    assert j * uniformAlign == i * uniformAlign + (j - i) * uniformAlign;
    MulLeMono(1, j - i, uniformAlign);
  }

  /** A write leaves every word that does not overlap it readable as before. */
  lemma WriteWordElsewhere(buf: seq<byte>, offset: nat, v: u32, other: nat)
    requires offset + BYTES_PER_ELEMENT <= |buf| && other + BYTES_PER_ELEMENT <= |buf|
    requires other + BYTES_PER_ELEMENT <= offset || offset + BYTES_PER_ELEMENT <= other
    ensures ReadWord(WriteWord(buf, offset, v), other) == ReadWord(buf, other)
  {
    var r := WriteWord(buf, offset, v);
    assert r[other] == buf[other] && r[other + 1] == buf[other + 1];
    assert r[other + 2] == buf[other + 2] && r[other + 3] == buf[other + 3];
  }

  /** Creates the zero-initialised `4 * uniformAlign`-byte buffer and writes
      pass index `i` at byte `i * uniformAlign` for `i = 0..3`. */
  method CreatePassBuffer(uniformAlign: nat) returns (buf: seq<byte>)
    requires uniformAlign >= BYTES_PER_ELEMENT
    ensures |buf| == PASS_COUNT * uniformAlign
    ensures forall i :: 0 <= i < PASS_COUNT ==> i * uniformAlign + uniformAlign <= |buf|
    ensures forall i :: 0 <= i < PASS_COUNT ==> ReadWord(buf, i * uniformAlign) == i
  {
    buf := seq(PASS_COUNT * uniformAlign, _ => 0);
    var i := 0;
    while i < PASS_COUNT
      invariant 0 <= i <= PASS_COUNT
      invariant |buf| == PASS_COUNT * uniformAlign
      invariant forall j :: 0 <= j < i ==> ReadWord(buf, j * uniformAlign) == j
    {
      SlotsApart(i, PASS_COUNT, uniformAlign);
      var before := buf;
      var offset := i * uniformAlign;
      buf := WriteWord(before, offset, i);
      forall j | 0 <= j < i
        ensures ReadWord(buf, j * uniformAlign) == j
      {
        SlotsApart(j, i, uniformAlign);
        WriteWordElsewhere(before, offset, i, j * uniformAlign);
      }
      i := i + 1;
    }
    forall i | 0 <= i < PASS_COUNT
      ensures i * uniformAlign + uniformAlign <= |buf|
    {
      MulLeMono(i + 1, PASS_COUNT, uniformAlign);
      assert (i + 1) * uniformAlign == i * uniformAlign + uniformAlign;
    }
  }
}
