/** How the disk is laid out: the geometry, the words inside a block, and the inodes inside those. */
module DiskFormat {
  import opened Wire

  const BLOCK_SIZE: nat := 512
  const BLOCK_NUM: nat := 32768
  const INODE_NUM: nat := 1024

  /** Bitmap bits per block, inodes per block, and pointers per block of 4-byte words. */
  const BPB: nat := 4096
  const IPB: nat := 3
  const NINDIRECT: nat := 128
  const NDIRECT: nat := 32
  const MAXFILE: nat := 160

  type Half = x: int | 0 <= x < 0x1_0000
  type Word = x: int | 0 <= x < 0x1_0000_0000
  type Block = b: seq<Byte> | |b| == BLOCK_SIZE witness seq(BLOCK_SIZE, _ => 0)
  type Pointers = p: seq<Word> | |p| == NDIRECT + 1 witness seq(NDIRECT + 1, _ => 0)
  type PointerTable = p: seq<Word> | |p| == NINDIRECT witness seq(NINDIRECT, _ => 0)

  function ZeroBlock(): Block {
    seq(BLOCK_SIZE, _ => 0)
  }

  // ---------------------------------------------------------------- geometry

  /** The block that holds inode `i`, on a disk of `nblocks` blocks. */
  function InodeBlock(nblocks: nat, bpb: nat, ipb: nat, i: nat): nat
    requires bpb > 0 && ipb > 0
  {
    nblocks / bpb + i / ipb + 3
  }

  /** The first block after those that the block manager reserves: boot, superblock, bitmap and the
      inode table with one spare block. */
  function FirstDataBlock(nblocks: nat, bpb: nat, ninodes: nat, ipb: nat): nat
    requires bpb > 0 && ipb > 0
  {
    2 + (nblocks + bpb - 1) / bpb + (ninodes + ipb - 1) / ipb + 1
  }

  lemma CancelFactor(d: nat, x: int, y: int)
    requires d > 0 && d * x < d * y
    ensures x < y
  {
    assert d * (y - x) > 0;
  }

  lemma DivMonotone(a: nat, b: nat, d: nat)
    requires a <= b && d > 0
    ensures a / d <= b / d
  {
    CancelFactor(d, a / d, b / d + 1);
  }

  lemma AddMultiple(a: nat, d: nat)
    requires d > 0
    ensures (a + d) / d == a / d + 1
  {
    var q, r := a / d, (a + d) / d;
    assert a == d * q + a % d && a + d == d * r + (a + d) % d;
    CancelFactor(d, r, q + 2);
    CancelFactor(d, q + 1, r + 1);
  }

  lemma CeilingBounds(a: nat, d: nat)
    requires d > 0
    ensures a / d <= (a + d - 1) / d <= a / d + 1
    ensures a > 0 ==> (a - 1) / d + 1 == (a + d - 1) / d
  {
    DivMonotone(a, a + d - 1, d);
    DivMonotone(a + d - 1, a + d, d);
    AddMultiple(a, d);
    if a > 0 {
      AddMultiple(a - 1, d);
    }
  }

  /** For every geometry, the inode table lies inside the reserved blocks and after the bitmap. */
  lemma InodeBlockIsReserved(nblocks: nat, bpb: nat, ninodes: nat, ipb: nat, i: nat)
    requires bpb > 0 && ipb > 0 && i < ninodes
    ensures 2 + (nblocks + bpb - 1) / bpb <= InodeBlock(nblocks, bpb, ipb, i)
    ensures InodeBlock(nblocks, bpb, ipb, i) < FirstDataBlock(nblocks, bpb, ninodes, ipb)
  {
    CeilingBounds(nblocks, bpb);
    CeilingBounds(ninodes, ipb);
    DivMonotone(i, ninodes - 1, ipb);
  }

  /** For every geometry, different inodes have different places. */
  lemma InodePlacesDiffer(nblocks: nat, bpb: nat, ipb: nat, i: nat, j: nat)
    requires bpb > 0 && ipb > 0 && i != j
    ensures InodeBlock(nblocks, bpb, ipb, i) != InodeBlock(nblocks, bpb, ipb, j) || i % ipb != j % ipb
  {
    assert i == ipb * (i / ipb) + i % ipb;
    assert j == ipb * (j / ipb) + j % ipb;
  }

  function IBlock(i: nat): nat {
    InodeBlock(BLOCK_NUM, BPB, IPB, i)
  }

  const FIRST_DATA: nat := FirstDataBlock(BLOCK_NUM, BPB, INODE_NUM, IPB)

  /** The number of blocks that `size` bytes occupy. */
  function BlockCount(size: nat): nat {
    (size + BLOCK_SIZE - 1) / BLOCK_SIZE
  }

  // ---------------------------------------------------------------- words in a block

  function WordAt(b: Block, k: nat): Word
    requires k < NINDIRECT
  {
    (b[4 * k] as int) + 0x100 * (b[4 * k + 1] as int)
    + 0x1_0000 * (b[4 * k + 2] as int) + 0x100_0000 * (b[4 * k + 3] as int)
  }

  function ByteOf(w: Word, p: nat): Byte
    requires p < 4
  {
    if p == 0 then w % 0x100
    else if p == 1 then w / 0x100 % 0x100
    else if p == 2 then w / 0x1_0000 % 0x100
    else w / 0x100_0000
  }

  lemma BytesOfWord(w: Word)
    ensures w == (ByteOf(w, 0) as int) + 0x100 * (ByteOf(w, 1) as int)
              + 0x1_0000 * (ByteOf(w, 2) as int) + 0x100_0000 * (ByteOf(w, 3) as int)
  {
    assert w / 0x1_0000 == (w / 0x100) / 0x100;
    assert w / 0x100_0000 == (w / 0x1_0000) / 0x100;
  }

  /** Copies the words `ws` over those of `b` from word `at` on. */
  function WriteWords(b: Block, at: nat, ws: seq<Word>): Block
    requires at + |ws| <= NINDIRECT
  {
    seq(BLOCK_SIZE, p requires 0 <= p < BLOCK_SIZE =>
      if 4 * at <= p < 4 * (at + |ws|) then ByteOf(ws[p / 4 - at], p % 4) else b[p])
  }

  lemma WordAfterWrite(b: Block, at: nat, ws: seq<Word>, k: nat)
    requires at + |ws| <= NINDIRECT && k < NINDIRECT
    ensures WordAt(WriteWords(b, at, ws), k) == if at <= k < at + |ws| then ws[k - at] else WordAt(b, k)
  {
    var b' := WriteWords(b, at, ws);
    if at <= k < at + |ws| {
      assert b'[4 * k] == ByteOf(ws[k - at], 0);
      assert b'[4 * k + 1] == ByteOf(ws[k - at], 1);
      assert b'[4 * k + 2] == ByteOf(ws[k - at], 2);
      assert b'[4 * k + 3] == ByteOf(ws[k - at], 3);
      BytesOfWord(ws[k - at]);
    }
  }

  /** The block as a table of words, which is how inodes and indirect blocks are read. */
  function ReadTable(b: Block): PointerTable {
    seq(NINDIRECT, k requires 0 <= k < NINDIRECT => WordAt(b, k))
  }

  lemma TableAfterWrite(b: Block, at: nat, ws: seq<Word>)
    requires at + |ws| <= NINDIRECT
    ensures ReadTable(WriteWords(b, at, ws)) == ReadTable(b)[..at] + ws + ReadTable(b)[at + |ws|..]
  {
    forall k | 0 <= k < NINDIRECT
      ensures WordAt(WriteWords(b, at, ws), k) == if at <= k < at + |ws| then ws[k - at] else WordAt(b, k) {
      WordAfterWrite(b, at, ws, k);
    }
  }

  // ---------------------------------------------------------------- inodes and pointer tables

  function TableBlock(t: PointerTable): Block {
    WriteWords(ZeroBlock(), 0, t)
  }

  lemma ReadAfterWriteTable(t: PointerTable)
    ensures ReadTable(TableBlock(t)) == t
  {
    TableAfterWrite(ZeroBlock(), 0, t);
  }

  datatype Inode = Inode(typ: Half, size: Word, atime: Word, mtime: Word, ctime: Word, blocks: Pointers)

  const INODE_WORDS: nat := 38

  function NewInode(typ: Half): Inode {
    Inode(typ, 0, 0, 0, 0, seq(NDIRECT + 1, _ => 0))
  }

  function InodeWords(ino: Inode): (ws: seq<Word>)
    ensures |ws| == INODE_WORDS
  {
    [ino.typ, ino.size, ino.atime, ino.mtime, ino.ctime] + ino.blocks
  }

  /** The type is a 16-bit field; the two bytes after it are padding. */
  function InodeFrom(ws: seq<Word>): Inode
    requires |ws| == INODE_WORDS
  {
    Inode(ws[0] % 0x1_0000, ws[1], ws[2], ws[3], ws[4], ws[5..])
  }

  function ReadInode(b: Block, slot: nat): Inode
    requires slot < IPB
  {
    InodeFrom(ReadTable(b)[INODE_WORDS * slot..INODE_WORDS * (slot + 1)])
  }

  function WriteInode(b: Block, slot: nat, ino: Inode): Block
    requires slot < IPB
  {
    WriteWords(b, INODE_WORDS * slot, InodeWords(ino))
  }

  lemma InodeRoundTrip(ino: Inode)
    ensures InodeFrom(InodeWords(ino)) == ino
  {
    assert InodeWords(ino)[5..] == ino.blocks;
  }

  /** A slice of the same length as the replaced part is either that part or untouched. */
  lemma Splice(t: seq<Word>, at: nat, ws: seq<Word>, lo: nat)
    requires at + |ws| <= |t| && lo + |ws| <= |t|
    requires lo == at || lo + |ws| <= at || at + |ws| <= lo
    ensures (t[..at] + ws + t[at + |ws|..])[lo..lo + |ws|] == if lo == at then ws else t[lo..lo + |ws|]
  {
  }

  lemma ReadAfterWriteInode(b: Block, slot: nat, ino: Inode, other: nat)
    requires slot < IPB && other < IPB
    ensures ReadInode(WriteInode(b, slot, ino), other) == if other == slot then ino else ReadInode(b, other)
  {
    TableAfterWrite(b, INODE_WORDS * slot, InodeWords(ino));
    Splice(ReadTable(b), INODE_WORDS * slot, InodeWords(ino), INODE_WORDS * other);
    InodeRoundTrip(ino);
  }
}
