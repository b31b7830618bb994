/**
  `shader::read_spirv` (src/framework/shader.cpp): load a SPIR-V binary as
  32-bit words. A SPIR-V module is a stream of 32-bit words (section 2.3,
  Physical Layout, of the SPIR-V specification). The reader pads the file
  with zero bytes up to a multiple of four and reinterprets the buffer as
  words in the host's byte order.

  The file is its byte content, or nothing when it cannot be opened.
*/
module Spirv {
  import opened Wrappers

  type Byte = x: nat | x < 256

  const WordLimit: nat := 0x1_0000_0000
  type Word = x: nat | x < WordLimit

  /** `sizeof(uint32_t)`. */
  const WordBytes: nat := 4

  /** The host's byte order, which decides how four bytes read as a word. */
  datatype Endian = Little | Big

  /** shader.cpp:15-17: the byte size rounded up to the next multiple of four. */
  function PaddedSize(size: nat): (r: nat)
    ensures r % WordBytes == 0
    ensures size <= r < size + WordBytes
    ensures forall m: nat :: m % WordBytes == 0 && size <= m ==> r <= m
  {
    var rem := size % WordBytes;
    size + (if rem != 0 then WordBytes - rem else 0)
  }

  /** The zero-initialised buffer holding the file's bytes (shader.cpp:21-25). */
  function Padded(bytes: seq<Byte>): (r: seq<Byte>)
    ensures |r| == PaddedSize(|bytes|)
    ensures r[..|bytes|] == bytes
    ensures forall i :: |bytes| <= i < |r| ==> r[i] == 0
  {
    bytes + seq(PaddedSize(|bytes|) - |bytes|, _ => 0)
  }

  /** Four bytes, first to last in memory, read as one word. */
  function WordOf(b0: Byte, b1: Byte, b2: Byte, b3: Byte, e: Endian): (w: Word) {
    match e
    case Little => b0 + 256 * (b1 + 256 * (b2 + 256 * b3))
    case Big => b3 + 256 * (b2 + 256 * (b1 + 256 * b0))
  }

  /** The four bytes of a word, first to last in memory. */
  function BytesOf(w: Word, e: Endian): (r: seq<Byte>)
    ensures |r| == 4
  {
    var lo := [w % 256, (w / 256) % 256, (w / 65536) % 256, w / 16777216];
    match e
    case Little => lo
    case Big => [lo[3], lo[2], lo[1], lo[0]]
  }

  lemma SplitByte(b: Byte, q: nat)
    ensures (b + 256 * q) % 256 == b
    ensures (b + 256 * q) / 256 == q
  {
  }

  lemma WordBytesRoundTrip(b0: Byte, b1: Byte, b2: Byte, b3: Byte, e: Endian)
    ensures BytesOf(WordOf(b0, b1, b2, b3, e), e) == [b0, b1, b2, b3]
  {
    var x0, x1, x2, x3 := b0, b1, b2, b3;
    if e.Big? {
      x0, x1, x2, x3 := b3, b2, b1, b0;
    }
    var w: nat := x0 as nat + 256 * (x1 as nat + 256 * (x2 as nat + 256 * x3 as nat));
    SplitByte(x0, x1 as nat + 256 * (x2 as nat + 256 * x3 as nat));
    SplitByte(x1, x2 as nat + 256 * x3 as nat);
    SplitByte(x2, x3);
    assert w / 65536 == (w / 256) / 256;
    assert w / 16777216 == ((w / 256) / 256) / 256;
  }

  /**
    shader.cpp:27-29: word i of the result is made of bytes 4i .. 4i+3 of the
    padded buffer.
  */
  function Pack(p: seq<Byte>, e: Endian): (r: seq<Word>)
    requires |p| % WordBytes == 0
    ensures |r| == |p| / WordBytes
    ensures forall i :: 0 <= i < |r| ==> r[i] == WordOf(p[4 * i], p[4 * i + 1], p[4 * i + 2], p[4 * i + 3], e)
    decreases |p|
  {
    if |p| == 0 then []
    else
      var rest := Pack(p[4..], e);
      assert forall i :: 0 <= i < |rest| ==> p[4..][4 * i] == p[4 * (i + 1)];
      [WordOf(p[0], p[1], p[2], p[3], e)] + rest
  }

  /** The bytes of a word sequence laid out in memory, the inverse of `Pack`. */
  function Unpack(ws: seq<Word>, e: Endian): (r: seq<Byte>)
    ensures |r| == WordBytes * |ws|
  {
    if |ws| == 0 then [] else BytesOf(ws[0], e) + Unpack(ws[1..], e)
  }

  lemma {:induction false} UnpackPack(p: seq<Byte>, e: Endian)
    requires |p| % WordBytes == 0
    ensures Unpack(Pack(p, e), e) == p
    decreases |p|
  {
    if |p| > 0 {
      UnpackPack(p[4..], e);
      WordBytesRoundTrip(p[0], p[1], p[2], p[3], e);
      assert p == [p[0], p[1], p[2], p[3]] + p[4..];
    }
  }

  /**
    `read_spirv` (shader.cpp:7-32): a null output is a domain error before the
    file is looked at; an unopenable file is an access error; otherwise the
    words of the zero-padded contents, ceil(size/4) of them, and success even
    for an empty file.
  */
  function ReadSpirv(hasOutput: bool, file: Option<seq<Byte>>, e: Endian): (r: Result<seq<Word>, ErrorKind>)
    ensures !hasOutput ==> r == Err(DomainError)
    ensures hasOutput && file.None? ==> r == Err(AccessError)
    ensures hasOutput && file.Some? ==> r.Ok? && |r.value| == (|file.value| + 3) / WordBytes
    ensures hasOutput && file.Some? ==> |r.value| * WordBytes == PaddedSize(|file.value|)
  {
    if !hasOutput then Err(DomainError)
    else match file
      case None => Err(AccessError)
      case Some(bytes) => Ok(Pack(Padded(bytes), e))
  }

  /** Laying the words back out in memory gives the file followed by zero padding. */
  lemma ReadSpirvRoundTrip(bytes: seq<Byte>, e: Endian)
    ensures var ws := ReadSpirv(true, Some(bytes), e).value;
      Unpack(ws, e) == Padded(bytes)
      && Unpack(ws, e)[..|bytes|] == bytes
  {
    UnpackPack(Padded(bytes), e);
  }

  /** A file whose size is already a multiple of four is read without any padding. */
  lemma AlignedFileNotPadded(bytes: seq<Byte>, e: Endian)
    requires |bytes| % WordBytes == 0
    ensures Unpack(ReadSpirv(true, Some(bytes), e).value, e) == bytes
  {
    ReadSpirvRoundTrip(bytes, e);
  }

  /**
    The SPIR-V magic number 0x07230203 stored least significant byte first
    reads back as the magic number on a little-endian host.
  */
  lemma MagicNumberLittleEndian(rest: seq<Byte>)
    ensures var ws := ReadSpirv(true, Some([0x03, 0x02, 0x23, 0x07] + rest), Little).value;
      |ws| > 0 && ws[0] == 0x07230203
  {
  }
}
