/**
  Boundary tags. Every block carries a header word at its low end and a
  footer word at its high end; both hold the block size in bytes and an
  allocated flag. Memory is modelled at tag granularity: a map from byte
  offsets (relative to the start of the heap) to the tag stored there.
 */
module Tags {

  /** The decoded contents of one header or footer word. */
  datatype Tag = Tag(size: nat, alloc: bool)

  /** Tag words written so far, keyed by byte offset from the heap start. */
  type Memory = map<int, Tag>

  /** Bytes taken by one header (or footer) word. */
  const HeaderSize: int := 8

  /** The block_size bit-field is 31 bits wide. */
  const SizeLimit: nat := 0x8000_0000

  /** The tag word at `off`; a word never written holds zero, which decodes as a free block of size 0. */
  function Read(m: Memory, off: int): Tag
  {
    if off in m then m[off] else Tag(0, false)
  }

  /**
    Assignment to the 31-bit block_size field of the word at `off`: the
    field keeps the size modulo 2^31, and the allocated bit is kept.
   */
  function SetSize(m: Memory, off: int, size: nat): (m': Memory)
    ensures Read(m', off) == Tag(size % SizeLimit, Read(m, off).alloc)
    ensures size < SizeLimit ==> Read(m', off).size == size
    ensures forall x :: x != off ==> Read(m', x) == Read(m, x)
  {
    m[off := Read(m, off).(size := size % SizeLimit)]
  }

  /** Assignment to the allocated bit of the word at `off`; the size field is kept. */
  function SetAlloc(m: Memory, off: int, alloc: bool): (m': Memory)
    ensures Read(m', off) == Tag(Read(m, off).size, alloc)
    ensures forall x :: x != off ==> Read(m', x) == Read(m, x)
  {
    m[off := Read(m, off).(alloc := alloc)]
  }

  /** get_footer: the footer of the block whose header is at `b` sits in the last word of the block. */
  function FooterOf(m: Memory, b: int): (f: int)
    ensures Read(m, b).size >= 2 * HeaderSize ==> b + HeaderSize <= f < b + Read(m, b).size
  {
    b + Read(m, b).size - HeaderSize
  }

  /**
    The low 32 bits of a tag word: bit 0 is the allocated flag, bits 1..31
    hold block_size.
   */
  function Encode(t: Tag): (w: nat)
    requires t.size < SizeLimit
    ensures w < 0x1_0000_0000
    ensures w % 2 == 1 <==> t.alloc
  {
    2 * t.size + (if t.alloc then 1 else 0)
  }

  /** Reads a tag back out of the low 32 bits of a word. */
  function Decode(w: nat): (t: Tag)
    requires w < 0x1_0000_0000
    ensures t.size < SizeLimit
  {
    Tag(w / 2, w % 2 == 1)
  }

  /** Writing a tag and reading it back gives the same tag. */
  lemma DecodeEncode(t: Tag)
    requires t.size < SizeLimit
    ensures Decode(Encode(t)) == t
  {
  }

  /** Every 32-bit word is the encoding of the tag it decodes to. */
  lemma EncodeDecode(w: nat)
    requires w < 0x1_0000_0000
    ensures Encode(Decode(w)) == w
  {
  }

  /** A word that was never written reads as what the all-zero word decodes to. */
  lemma UnwrittenIsZeroWord(m: Memory, off: int)
    requires off !in m
    ensures Read(m, off) == Decode(0)
  {
  }
}
