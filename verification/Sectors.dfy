/** Disk sectors and the on-disk structures that are copied to and from them byte for byte. */
module Sectors {
  import opened Basics

  const SECTOR_SIZE := 512
  const WORDS_PER_SECTOR := 128

  type Sector = s: seq<Byte> | |s| == SECTOR_SIZE witness seq(512, _ => 0)

  function Zeros(): Sector { seq(SECTOR_SIZE, _ => 0) }

  // --------------------------------------------------------------------------
  // A sector read as 128 little-endian 32-bit words (struct inode_indirect_block_sector)

  type Block = b: seq<U32> | |b| == WORDS_PER_SECTOR witness seq(128, _ => 0)

  function Word(s: Sector, i: nat): U32
    requires i < WORDS_PER_SECTOR
  {
    var b0: int, b1: int, b2: int, b3: int := s[4 * i], s[4 * i + 1], s[4 * i + 2], s[4 * i + 3];
    b0 + 0x100 * b1 + 0x1_0000 * b2 + 0x100_0000 * b3
  }

  function Unpack(s: Sector): Block {
    seq(WORDS_PER_SECTOR, i requires 0 <= i < WORDS_PER_SECTOR => Word(s, i))
  }

  function WordByte(w: U32, k: nat): Byte
    requires k < 4
  {
    match k
    case 0 => w % 0x100
    case 1 => w / 0x100 % 0x100
    case 2 => w / 0x1_0000 % 0x100
    case _ => w / 0x100_0000
  }

  function Pack(b: Block): Sector {
    seq(SECTOR_SIZE, i requires 0 <= i < SECTOR_SIZE => WordByte(b[i / 4], i % 4))
  }

  lemma WordOfBytes(w: U32)
    ensures var b0: int, b1: int, b2: int, b3: int :=
              WordByte(w, 0), WordByte(w, 1), WordByte(w, 2), WordByte(w, 3);
            b0 + 0x100 * b1 + 0x1_0000 * b2 + 0x100_0000 * b3 == w
  {
  }

  lemma WordOfPack(b: Block, i: nat)
    requires i < WORDS_PER_SECTOR
    ensures Word(Pack(b), i) == b[i]
  {
    var s := Pack(b);
    assert s[4 * i] == WordByte(b[i], 0);
    assert s[4 * i + 1] == WordByte(b[i], 1);
    assert s[4 * i + 2] == WordByte(b[i], 2);
    assert s[4 * i + 3] == WordByte(b[i], 3);
    WordOfBytes(b[i]);
  }

  /** Writing an index block and reading it back gives the same block. */
  lemma PackRoundTrip(b: Block)
    ensures Unpack(Pack(b)) == b
  {
    forall i | 0 <= i < WORDS_PER_SECTOR ensures Unpack(Pack(b))[i] == b[i] {
      WordOfPack(b, i);
    }
  }

  /** A zeroed sector reads as a block without any entry. */
  lemma UnpackZeros(i: nat)
    requires i < WORDS_PER_SECTOR
    ensures Unpack(Zeros())[i] == 0
  {
  }

  // --------------------------------------------------------------------------
  // The on-disk inode (struct inode_disk)

  const DIRECT_BLOCKS_COUNT := 123
  const INODE_MAGIC: U32 := 0x494e4f44

  datatype InodeDisk = InodeDisk(
    direct: seq<U32>,
    indirect: U32,
    doublyIndirect: U32,
    isDir: bool,
    length: I32,
    magic: U32)

  ghost predicate WellFormed(d: InodeDisk) {
    |d.direct| == DIRECT_BLOCKS_COUNT
  }

  function SignedToWord(n: I32): U32 {
    if n < 0 then n + 0x1_0000_0000 else n
  }

  function WordToSigned(w: U32): I32 {
    if w < 0x8000_0000 then w else w - 0x1_0000_0000
  }

  function InodeWords(d: InodeDisk): Block
    requires WellFormed(d)
  {
    d.direct + [d.indirect, d.doublyIndirect, if d.isDir then 1 else 0, SignedToWord(d.length), d.magic]
  }

  function PackInode(d: InodeDisk): Sector
    requires WellFormed(d)
  {
    Pack(InodeWords(d))
  }

  function InodeOfWords(w: Block): (d: InodeDisk)
    ensures WellFormed(d)
  {
    InodeDisk(w[..DIRECT_BLOCKS_COUNT], w[123], w[124], w[125] % 0x100 != 0, WordToSigned(w[126]), w[127])
  }

  function UnpackInode(s: Sector): (d: InodeDisk)
    ensures WellFormed(d)
  {
    InodeOfWords(Unpack(s))
  }

  lemma InodeOfInodeWords(d: InodeDisk)
    requires WellFormed(d)
    ensures InodeOfWords(InodeWords(d)) == d
  {
    assert InodeWords(d)[..DIRECT_BLOCKS_COUNT] == d.direct;
  }

  /** Where an inode's sector holds what: the entries in order, then the flag, the length as a 32-bit number in
      two's complement, and the magic number. */
  lemma InodeLayout(d: InodeDisk, k: nat)
    requires WellFormed(d) && k < WORDS_PER_SECTOR
    ensures var w := Word(PackInode(d), k);
            && (k < DIRECT_BLOCKS_COUNT ==> w == d.direct[k])
            && (k == 123 ==> w == d.indirect) && (k == 124 ==> w == d.doublyIndirect)
            && (k == 125 ==> w == if d.isDir then 1 else 0)
            && (k == 126 ==> w == if d.length < 0 then 0x1_0000_0000 + d.length else d.length)
            && (k == 127 ==> w == d.magic)
  {
    hide Word, Pack;
    WordOfPack(InodeWords(d), k);
  }

  /** Writing an inode to its sector and reading it back loses nothing. */
  lemma InodeRoundTrip(d: InodeDisk)
    requires WellFormed(d)
    ensures UnpackInode(PackInode(d)) == d
  {
    PackRoundTrip(InodeWords(d));
    InodeOfInodeWords(d);
  }
}
