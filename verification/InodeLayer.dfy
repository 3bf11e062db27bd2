/** The inode manager: files by inode number, on top of the block manager. */
module InodeLayer {
  import opened Wire
  import opened DiskFormat
  import opened BlockLayer
  import opened ExtentSpec
  import FS = FileStore

  datatype MaybeInode = Missing | Found(ino: Inode)

  /** How many of the first `n` blocks had to be taken. */
  function Taken(orig: nat, n: nat): nat {
    if n > orig then n - orig else 0
  }

  function Min(a: nat, b: nat): nat {
    if a < b then a else b
  }

  /** A write among the direct blocks: the pointers of the inode are new up to |p| and old after. */
  ghost predicate WritingDirect(st: FS.Store, st': FS.Store, i: nat, p: seq<nat>, mem: seq<Byte>,
                                blocks: Pointers, orig: nat, cur: nat) {
    && FS.Writing(st, st', i, p, {}, mem)
    && |p| <= NDIRECT && |p| <= cur <= MAXFILE && BLOCK_SIZE * cur <= |mem|
    && orig == BlockCount(FS.GetInode(st, i).size)
    && (forall j :: 0 <= j < |p| ==> blocks[j] == p[j])
    && (forall j :: |p| <= j <= NDIRECT ==> blocks[j] == FS.GetInode(st, i).blocks[j])
    && |FS.Free(st)| == |FS.Free(st')| + Taken(orig, |p|)
  }

  lemma DirectStep(st: FS.Store, st1: FS.Store, st2: FS.Store, i: nat, p: seq<nat>, mem: seq<Byte>,
                   blocks: Pointers, orig: nat, cur: nat, b: Word)
    requires WritingDirect(st, st1, i, p, mem, blocks, orig, cur) && |p| < NDIRECT && |p| < cur
    requires FS.Writing(st, st2, i, p + [b as int], {}, mem)
    requires |FS.Free(st2)| == |FS.Free(st1)| - (if |p| < orig then 0 else 1)
    ensures WritingDirect(st, st2, i, p + [b as int], mem, blocks[|p| := b], orig, cur)
  {
    hide FS.Writing, FS.Free, FS.GetInode;
  }

  /** A write beyond the direct blocks: the table is new up to |p| and, where there was one, old
      after; the indirect block is the old one, or `extra` when it had to be taken. */
  ghost predicate WritingIndirect(st: FS.Store, st': FS.Store, i: nat, p: seq<nat>, extra: set<nat>, mem: seq<Byte>,
                                  blocks: Pointers, table: PointerTable, orig: nat, cur: nat) {
    && FS.Writing(st, st', i, p, extra, mem)
    && NDIRECT <= |p| <= cur <= MAXFILE && BLOCK_SIZE * cur <= |mem|
    && orig == BlockCount(FS.GetInode(st, i).size) < MAXFILE
    && (forall j :: 0 <= j < NDIRECT ==> blocks[j] == p[j])
    && (forall j :: NDIRECT <= j < |p| ==> table[j - NDIRECT] == p[j])
    && (forall j :: |p| <= j < orig ==> table[j - NDIRECT] == FS.At(st, i, j))
    && (if orig > NDIRECT then extra == {} && blocks[NDIRECT] == FS.At(st, i, MAXFILE) else extra == {blocks[NDIRECT]})
    && |FS.Free(st)| == |FS.Free(st')| + Taken(orig, |p|) + |extra|
  }

  /** The same when the disk was full on the way: block 0 was handed out. */
  ghost predicate ShortDirect(st: FS.Store, i: nat, p: seq<nat>, mem: seq<Byte>, blocks: Pointers, orig: nat, cur: nat) {
    && i < INODE_NUM && |p| <= NDIRECT && |p| <= cur <= MAXFILE && BLOCK_SIZE * cur <= |mem|
    && orig == BlockCount(FS.GetInode(st, i).size)
    && (forall j :: 0 <= j < |p| ==> blocks[j] == p[j])
    && (forall j :: |p| <= j <= NDIRECT ==> blocks[j] == FS.GetInode(st, i).blocks[j])
    && 0 in p && |FS.Free(st)| < Needed(orig, cur)
  }

  ghost predicate ShortIndirect(st: FS.Store, i: nat, p: seq<nat>, mem: seq<Byte>,
                                blocks: Pointers, table: PointerTable, orig: nat, cur: nat) {
    && i < INODE_NUM && NDIRECT <= |p| <= cur <= MAXFILE && BLOCK_SIZE * cur <= |mem|
    && orig == BlockCount(FS.GetInode(st, i).size)
    && (forall j :: 0 <= j < NDIRECT ==> blocks[j] == p[j])
    && (forall j :: NDIRECT <= j < |p| ==> table[j - NDIRECT] == p[j])
    && blocks[NDIRECT] < BLOCK_NUM && (0 in p || blocks[NDIRECT] == 0) && |FS.Free(st)| < Needed(orig, cur)
  }

  ghost predicate Direct(short: bool, st: FS.Store, st': FS.Store, i: nat, p: seq<nat>, mem: seq<Byte>,
                         blocks: Pointers, orig: nat, cur: nat) {
    if short then ShortDirect(st, i, p, mem, blocks, orig, cur) else WritingDirect(st, st', i, p, mem, blocks, orig, cur)
  }

  ghost predicate Indirect(short: bool, st: FS.Store, st': FS.Store, i: nat, p: seq<nat>, extra: set<nat>, mem: seq<Byte>,
                           blocks: Pointers, table: PointerTable, orig: nat, cur: nat) {
    if short then ShortIndirect(st, i, p, mem, blocks, table, orig, cur)
    else WritingIndirect(st, st', i, p, extra, mem, blocks, table, orig, cur)
  }

  /** The first block that cannot be had, among the direct ones; and a block after that. */
  lemma DirectFallsShort(st: FS.Store, st1: FS.Store, i: nat, p: seq<nat>, mem: seq<Byte>,
                         blocks: Pointers, orig: nat, cur: nat)
    requires WritingDirect(st, st1, i, p, mem, blocks, orig, cur) && orig <= |p| < NDIRECT && |p| < cur
    requires FS.Free(st1) == {}
    ensures ShortDirect(st, i, p + [0], mem, blocks[|p| := 0], orig, cur)
  {
    hide FS.GetInode;
    assert (p + [0])[|p|] == 0;
  }

  lemma DirectStaysShort(st: FS.Store, i: nat, p: seq<nat>, mem: seq<Byte>, blocks: Pointers, orig: nat, cur: nat, b: Word)
    requires ShortDirect(st, i, p, mem, blocks, orig, cur) && |p| < NDIRECT && |p| < cur
    ensures ShortDirect(st, i, p + [b as int], mem, blocks[|p| := b], orig, cur)
  {
    hide FS.GetInode;
  }

  /** The pointer table after the direct blocks fell short, or with no block left for it. */
  lemma TableFallsShort(st: FS.Store, st1: FS.Store, i: nat, p: seq<nat>, mem: seq<Byte>, blocks: Pointers, orig: nat, cur: nat,
                        table: PointerTable)
    requires WritingDirect(st, st1, i, p, mem, blocks, orig, cur) && |p| == NDIRECT < cur && orig <= NDIRECT
    requires FS.Free(st1) == {}
    ensures ShortIndirect(st, i, p, mem, blocks[NDIRECT := 0], table, orig, cur)
  {
    hide FS.GetInode;
  }

  lemma TableStaysShort(st: FS.Store, i: nat, p: seq<nat>, mem: seq<Byte>, blocks: Pointers, orig: nat, cur: nat,
                        table: PointerTable, b: Word)
    requires FS.Inv(st) && FS.Live(st, i) && ShortDirect(st, i, p, mem, blocks, orig, cur) && |p| == NDIRECT < cur
    requires if orig > NDIRECT then b == blocks[NDIRECT] else b < BLOCK_NUM
    ensures ShortIndirect(st, i, p, mem, blocks[NDIRECT := b], table, orig, cur)
  {
    assert orig > NDIRECT ==> FS.Slot(st, i, MAXFILE);
  }

  lemma IndirectFallsShort(st: FS.Store, st1: FS.Store, i: nat, p: seq<nat>, extra: set<nat>, mem: seq<Byte>,
                           blocks: Pointers, table: PointerTable, orig: nat, cur: nat)
    requires NDIRECT <= |p| < cur <= MAXFILE && orig <= |p|
    requires FS.Inv(st) && WritingIndirect(st, st1, i, p, extra, mem, blocks, table, orig, cur)
    requires FS.Free(st1) == {}
    ensures ShortIndirect(st, i, p + [0], mem, blocks, table[|p| - NDIRECT := 0], orig, cur)
  {
    IndirectBlockBound(st, st1, i, p, extra, mem, blocks, table, orig, cur);
    hide FS.Inv, FS.GetInode;
    assert (p + [0])[|p|] == 0;
  }

  lemma IndirectStaysShort(st: FS.Store, i: nat, p: seq<nat>, mem: seq<Byte>,
                           blocks: Pointers, table: PointerTable, orig: nat, cur: nat, b: Word)
    requires NDIRECT <= |p| < cur <= MAXFILE
    requires ShortIndirect(st, i, p, mem, blocks, table, orig, cur)
    ensures ShortIndirect(st, i, p + [b as int], mem, blocks, table[|p| - NDIRECT := b], orig, cur)
  {
    hide FS.GetInode;
  }

  /** A write that fell short, once its inode and table are stored: ownership is broken. */
  lemma ShortDone(st: FS.Store, st1: FS.Store, i: nat, p: seq<nat>, mem: seq<Byte>,
                  blocks: Pointers, table: PointerTable, orig: nat, cur: nat, ino: Inode)
    requires ino.typ != 0 && ino.blocks == blocks && |p| == cur == BlockCount(ino.size) < MAXFILE
    requires if cur > NDIRECT then ShortIndirect(st, i, p, mem, blocks, table, orig, cur)
             else ShortDirect(st, i, p, mem, blocks, orig, cur)
    ensures cur > NDIRECT ==> blocks[NDIRECT] < BLOCK_NUM
    ensures !FS.Inv(FS.PutInode(FS.WriteTable(st1, ino, table), i, ino))
  {
    FS.ZeroBreaksOwnership(st1, i, p, ino, table);
  }

  lemma OpenOldTable(st: FS.Store, st1: FS.Store, i: nat, p: seq<nat>, mem: seq<Byte>, blocks: Pointers, orig: nat, cur: nat)
    requires FS.Inv(st) && WritingDirect(st, st1, i, p, mem, blocks, orig, cur) && |p| == NDIRECT < cur && orig > NDIRECT
    ensures blocks[NDIRECT] < BLOCK_NUM
    ensures WritingIndirect(st, st1, i, p, {}, mem, blocks, ReadTable(st1.disk[blocks[NDIRECT]]), orig, cur)
  {
    FS.OldTable(st, st1, i, p, {}, mem);
  }

  lemma OpenNewTable(st: FS.Store, st1: FS.Store, i: nat, p: seq<nat>, mem: seq<Byte>, blocks: Pointers, orig: nat, cur: nat, b: Word)
    requires FS.Inv(st) && WritingDirect(st, st1, i, p, mem, blocks, orig, cur) && |p| == NDIRECT < cur && orig <= NDIRECT
    requires b in FS.Free(st1)
    ensures WritingIndirect(st, st1.(marked := st1.marked + {b as int}), i, p, {b as int}, mem,
                            blocks[NDIRECT := b], ZeroTable(), orig, cur)
  {
    FS.TakeExtra(st, st1, i, p, mem, b);
    assert FS.Free(st1.(marked := st1.marked + {b as int})) == FS.Free(st1) - {b as int};
  }

  lemma IndirectStep(st: FS.Store, st1: FS.Store, st2: FS.Store, i: nat, p: seq<nat>, extra: set<nat>, mem: seq<Byte>,
                     blocks: Pointers, table: PointerTable, orig: nat, cur: nat, b: Word)
    requires NDIRECT <= |p| < cur <= MAXFILE
    requires WritingIndirect(st, st1, i, p, extra, mem, blocks, table, orig, cur)
    requires FS.Writing(st, st2, i, p + [b as int], extra, mem)
    requires |FS.Free(st2)| == |FS.Free(st1)| - (if |p| < orig then 0 else 1)
    ensures WritingIndirect(st, st2, i, p + [b as int], extra, mem, blocks, table[|p| - NDIRECT := b], orig, cur)
  {
    hide FS.Writing, FS.Free, FS.At, FS.GetInode;
  }

  /** With all blocks written, the inode and the table are what the file store needs to finish. */
  lemma IndirectDone(st: FS.Store, st1: FS.Store, i: nat, p: seq<nat>, extra: set<nat>, mem: seq<Byte>,
                     blocks: Pointers, table: PointerTable, orig: nat, cur: nat, size: Word)
    requires FS.Inv(st) && WritingIndirect(st, st1, i, p, extra, mem, blocks, table, orig, cur)
    requires |p| == cur == BlockCount(size) > NDIRECT && size <= |mem| && cur < MAXFILE
    ensures |FS.Free(st1)| == |FS.Free(st)| - Needed(orig, cur)
    ensures blocks[NDIRECT] < BLOCK_NUM
    ensures FS.Written(st, st1, i, p, extra, mem, FS.GetInode(st, i).(size := size, blocks := blocks), table)
  {
    IndirectBlockBound(st, st1, i, p, extra, mem, blocks, table, orig, cur);
  }

  lemma DirectDone(st: FS.Store, st1: FS.Store, i: nat, p: seq<nat>, mem: seq<Byte>,
                   blocks: Pointers, table: PointerTable, orig: nat, cur: nat, size: Word)
    requires WritingDirect(st, st1, i, p, mem, blocks, orig, cur)
    requires |p| == cur == BlockCount(size) && size <= |mem|
    requires cur <= NDIRECT
    ensures |FS.Free(st1)| == |FS.Free(st)| - Needed(orig, cur)
    ensures FS.Written(st, st1, i, p, {}, mem, FS.GetInode(st, i).(size := size, blocks := blocks), table)
  {
  }

  const INT_LIMIT := 0x8000_0000

  /** Every block that the loops come to has been written. */
  ghost predicate AllWritten(short: bool, st: FS.Store, st1: FS.Store, i: nat, p: seq<nat>, extra: set<nat>, mem: seq<Byte>,
                             blocks: Pointers, table: PointerTable, orig: nat, cur: nat) {
    && |p| == cur
    && if cur > NDIRECT then Indirect(short, st, st1, i, p, extra, mem, blocks, table, orig, cur)
       else Direct(short, st, st1, i, p, mem, blocks, orig, cur) && extra == {}
  }

  /** The last step of a write, whichever way it went. */
  lemma WriteFileDone(st: FS.Store, st1: FS.Store, i: nat, p: seq<nat>, extra: set<nat>, mem: seq<Byte>,
                      blocks: Pointers, table: PointerTable, orig: nat, cur: nat, ino: Inode, short: bool)
    requires FS.Inv(st) && FS.Live(st, i) && ino == FS.GetInode(st, i).(size := ino.size, blocks := blocks)
    requires orig == FS.Blocks(st, i) && cur == Min(BlockCount(ino.size), MAXFILE) && ino.size <= |mem|
    requires AllWritten(short, st, st1, i, p, extra, mem, blocks, table, orig, cur)
    ensures cur > NDIRECT ==> blocks[NDIRECT] < BLOCK_NUM
    ensures var st' := FS.PutInode(if cur < MAXFILE then FS.WriteTable(st1, ino, table) else st1, i, ino);
      && (FS.Inv(st') <==> FS.Room(st, i, ino.size))
      && (FS.Room(st, i, ino.size) ==>
            && FS.Files(st') == FS.Files(st)[i := File(FS.GetInode(st, i).typ, mem[..ino.size])]
            && (FS.Exact(st') <==> FS.Exact(st) && orig <= cur)
            && |FS.Free(st1)| == |FS.Free(st)| - Needed(orig, cur))
      && (cur == MAXFILE && Needed(orig, MAXFILE) <= |FS.Free(st)| ==> FS.TableNotStored(st, st', i, ino.size))
  {
    hide FS.Inv, FS.Files, FS.Exact, FS.Written, FS.TableNotStored;
    if cur == MAXFILE {
      TooBigDone(st, st1, i, p, extra, mem, blocks, table, orig, ino, short);
    } else if short {
      ShortDone(st, st1, i, p, mem, blocks, table, orig, cur, ino);
    } else {
      if cur > NDIRECT {
        IndirectDone(st, st1, i, p, extra, mem, blocks, table, orig, cur, ino.size);
      } else {
        DirectDone(st, st1, i, p, mem, blocks, table, orig, cur, ino.size);
      }
      FS.WriteDone(st, st1, i, p, extra, mem, ino, table);
    }
  }

  lemma TooBigDone(st: FS.Store, st1: FS.Store, i: nat, p: seq<nat>, extra: set<nat>, mem: seq<Byte>,
                   blocks: Pointers, table: PointerTable, orig: nat, ino: Inode, short: bool)
    requires FS.Inv(st) && FS.Live(st, i) && ino == FS.GetInode(st, i).(size := ino.size, blocks := blocks)
    requires orig == FS.Blocks(st, i) && BlockCount(ino.size) >= MAXFILE && |p| == MAXFILE
    requires Indirect(short, st, st1, i, p, extra, mem, blocks, table, orig, MAXFILE)
    ensures blocks[NDIRECT] < BLOCK_NUM
    ensures !FS.Inv(FS.PutInode(st1, i, ino))
    ensures Needed(orig, MAXFILE) <= |FS.Free(st)| ==> FS.TableNotStored(st, FS.PutInode(st1, i, ino), i, ino.size)
  {
    FS.GetAfterPut(st1, i, ino, i);
    FS.TooBigIsInvalid(FS.PutInode(st1, i, ino), i);
    hide FS.Inv, FS.TableNotStored, FS.PutInode;
    if !short {
      IndirectBlockBound(st, st1, i, p, extra, mem, blocks, table, orig, MAXFILE);
      FS.TooManyBlocks(st, st1, i, p, extra, mem, ino);
    }
  }

  function ZeroTable(): PointerTable {
    seq(NINDIRECT, _ => 0)
  }

  lemma StartDirect(st: FS.Store, i: nat, mem: seq<Byte>, orig: nat, cur: nat)
    requires FS.Inv(st) && FS.Live(st, i) && orig == BlockCount(FS.GetInode(st, i).size)
    requires cur <= MAXFILE && BLOCK_SIZE * cur <= |mem|
    ensures WritingDirect(st, st, i, [], mem, FS.GetInode(st, i).blocks, orig, cur)
  {
    FS.WriteStarts(st, i, mem);
  }

  lemma IndirectBlockBound(st: FS.Store, st1: FS.Store, i: nat, p: seq<nat>, extra: set<nat>, mem: seq<Byte>,
                           blocks: Pointers, table: PointerTable, orig: nat, cur: nat)
    requires FS.Inv(st) && WritingIndirect(st, st1, i, p, extra, mem, blocks, table, orig, cur)
    ensures blocks[NDIRECT] < BLOCK_NUM
  {
    if orig > NDIRECT {
      FS.OldTable(st, st1, i, p, extra, mem);
    } else {
      assert blocks[NDIRECT] in extra;
    }
  }

  lemma RootCreated()
    ensures Created(map[], LowestUnused(map[], 1), 1) == map[1 := File(1, [])]
  {
  }

  lemma BlankInode(i: nat)
    requires i < INODE_NUM
    ensures !FS.Live(FS.Store(FS.BlankDisk(), {}), i)
  {
    assert WordAt(ZeroBlock(), INODE_WORDS * (i % IPB)) == 0;
  }

  /** A disk of zeros has no files, so the reserved blocks are all that is marked. */
  lemma BlankStore(st: FS.Store)
    requires st.disk == FS.BlankDisk() && forall b: nat :: b in st.marked <==> b < FIRST_DATA
    ensures FS.Inv(st) && FS.Exact(st) && FS.Files(st) == map[]
    ensures |FS.Free(st)| == BLOCK_NUM - FIRST_DATA
  {
    FS.CountUnmarked(st.marked, FIRST_DATA);
    forall i: nat ensures !FS.Live(st, i) {
      if i < INODE_NUM {
        BlankInode(i);
        assert FS.GetInode(st, i) == FS.GetInode(FS.Store(FS.BlankDisk(), {}), i);
      }
    }
  }

  /** A block that holds bytes of a file is reached through pointers into the disk. */
  lemma DataPointer(st: FS.Store, i: nat, k: nat)
    requires FS.Inv(st) && FS.Live(st, i) && BLOCK_SIZE * k < FS.GetInode(st, i).size
    ensures k < MAXFILE && FS.Ptr(st.disk, FS.GetInode(st, i), k) < BLOCK_NUM
    ensures k >= NDIRECT ==> FS.GetInode(st, i).blocks[NDIRECT] < BLOCK_NUM
  {
    assert FS.Slot(st, i, k);
    assert k >= NDIRECT ==> FS.Slot(st, i, MAXFILE);
  }

  lemma TableEntry(disk: FS.Disk, ino: Inode, k: nat)
    requires k < NINDIRECT && ino.blocks[NDIRECT] < BLOCK_NUM
    ensures FS.Ptr(disk, ino, NDIRECT + k) == ReadTable(disk[ino.blocks[NDIRECT]])[k]
  {
  }

  /** The bytes of a file one block further are those of its next block. */
  lemma NextChunk(disk: FS.Disk, ino: Inode, k: nat)
    requires BLOCK_SIZE * k < ino.size && FS.Ptr(disk, ino, k) < BLOCK_NUM
    ensures FS.Content(disk, ino)[..Min(BLOCK_SIZE * (k + 1), ino.size)]
         == FS.Content(disk, ino)[..BLOCK_SIZE * k]
            + disk[FS.Ptr(disk, ino, k)][..Min(BLOCK_SIZE, ino.size - BLOCK_SIZE * k)]
  {
    var c, n := FS.Content(disk, ino), Min(BLOCK_SIZE * (k + 1), ino.size);
    forall q | BLOCK_SIZE * k <= q < n ensures c[q] == disk[FS.Ptr(disk, ino, k)][q - BLOCK_SIZE * k] {
      assert q / BLOCK_SIZE == k && q % BLOCK_SIZE == q - BLOCK_SIZE * k;
    }
  }

  class InodeManager {
    const bm: BlockManager

    ghost predicate Valid()
      reads this, bm, bm.d, bm.bitmap, bm.Repr()
    {
      bm.Valid() && FS.Inv(bm.State())
    }

    ghost function State(): FS.Store
      requires bm.Valid()
      reads this, bm, bm.d, bm.bitmap, bm.Repr()
    {
      bm.State()
    }

    method GetInode(inum: nat) returns (r: MaybeInode)
      requires bm.Valid()
      ensures r == if FS.Live(State(), inum) then Found(FS.GetInode(State(), inum)) else Missing
    {
      if inum >= INODE_NUM {
        return Missing;
      }
      FS.IBlockBounds(inum);
      var buf := bm.ReadBlock(IBlock(inum), ZeroBlock());
      var ino := ReadInode(buf, inum % IPB);
      if ino.typ == 0 {
        return Missing;
      }
      return Found(ino);
    }

    method PutInode(inum: nat, ino: Inode)
      requires bm.Valid() && inum < INODE_NUM
      modifies bm.Repr()
      ensures bm.Valid()
      ensures State() == FS.PutInode(old(State()), inum, ino)
    {
      FS.IBlockBounds(inum);
      var buf := bm.ReadBlock(IBlock(inum), ZeroBlock());
      buf := WriteInode(buf, inum % IPB, ino);
      bm.WriteBlock(IBlock(inum), buf);
    }

    /** The root directory becomes inode 1. */
    constructor ()
      ensures Valid() && fresh(bm.Repr())
      ensures FS.Files(State()) == map[1 := File(1, [])]
      ensures FS.Exact(State()) && |FS.Free(State())| == BLOCK_NUM - FIRST_DATA
      ensures FS.Fresh(State())
    {
      bm := new BlockManager();
      new;
      hide FS.Inv, FS.Files, FS.Exact;
      BlankStore(bm.State());
      assert FS.Fresh(bm.State());
      RootCreated();
      var root := AllocInode(1);
    }

    /** The lowest unused inode number, or 0 when all are in use; the type is cut to 16 bits. */
    method AllocInode(typ: nat) returns (inum: nat)
      requires Valid()
      modifies bm.Repr()
      ensures Valid()
      ensures inum == LowestUnused(FS.Files(old(State())), 1)
      ensures FS.Files(State()) == Created(FS.Files(old(State())), inum, typ)
      ensures FS.Exact(State()) <==> FS.Exact(old(State()))
      ensures FS.Free(State()) == FS.Free(old(State()))
      ensures FS.Fresh(old(State())) ==> FS.Fresh(State())
    {
      hide FS.Inv, FS.Exact, FS.Files;
      var i := FirstMissing();
      FS.InFiles(State(), i);
      if i < INODE_NUM {
        FS.CreateDone(State(), i, typ % 0x1_0000);
        FS.PutKeepsFresh(State(), i, NewInode(typ % 0x1_0000));
        PutInode(i, NewInode(typ % 0x1_0000));
        return i;
      }
      return 0;
    }

    method FirstMissing() returns (i: nat)
      requires bm.Valid()
      ensures 0 < i <= INODE_NUM
      ensures (if i < INODE_NUM then i else 0) == LowestUnused(FS.Files(State()), 1)
    {
      hide FS.Files, FS.Live;
      ghost var st := State();
      i := 1;
      while i < INODE_NUM
        invariant 1 <= i <= INODE_NUM && State() == st
        invariant LowestUnused(FS.Files(st), i) == LowestUnused(FS.Files(st), 1)
      {
        FS.InFiles(st, i);
        var tmp := GetInode(i);
        if tmp.Missing? {
          break;
        }
        i := i + 1;
      }
    }

    method ReadFile(inum: nat) returns (data: seq<Byte>)
      requires Valid()
      ensures data == if inum in FS.Files(State()) then FS.Files(State())[inum].data else []
    {
      ghost var st := State();
      FS.InFiles(st, inum);
      hide FS.Inv, FS.Files, FS.Content;
      var r := GetInode(inum);
      if r.Missing? {
        return [];
      }
      var n;
      n, data := ReadDirect(r.ino, st, inum);
      if n < r.ino.size {
        data := ReadIndirect(r.ino, n, data, st, inum);
      }
    }

    method ReadDirect(ino: Inode, ghost st: FS.Store, ghost inum: nat) returns (readSize: nat, data: seq<Byte>)
      requires bm.Valid() && State() == st && FS.Inv(st) && FS.Live(st, inum) && ino == FS.GetInode(st, inum)
      ensures readSize >= ino.size || readSize == BLOCK_SIZE * NDIRECT
      ensures data == FS.Content(st.disk, ino)[..Min(readSize, ino.size)]
    {
      hide FS.Inv, FS.Content;
      var buf := ZeroBlock();
      readSize, data := 0, [];
      var k := 0;
      while k < NDIRECT && readSize < ino.size
        invariant 0 <= k <= NDIRECT && readSize == BLOCK_SIZE * k && State() == st
        invariant data == FS.Content(st.disk, ino)[..Min(readSize, ino.size)]
        decreases NDIRECT - k
      {
        DataPointer(st, inum, k);
        NextChunk(st.disk, ino, k);
        buf := bm.ReadBlock(ino.blocks[k], buf);
        data := data + buf[..Min(BLOCK_SIZE, ino.size - readSize)];
        readSize := readSize + BLOCK_SIZE;
        k := k + 1;
      }
    }

    method ReadIndirect(ino: Inode, n: nat, data0: seq<Byte>, ghost st: FS.Store, ghost inum: nat) returns (data: seq<Byte>)
      requires bm.Valid() && State() == st && FS.Inv(st) && FS.Live(st, inum) && ino == FS.GetInode(st, inum)
      requires n == BLOCK_SIZE * NDIRECT < ino.size && data0 == FS.Content(st.disk, ino)[..n]
      ensures data == FS.Content(st.disk, ino)
    {
      hide FS.Inv, FS.Content, FS.Ptr, FS.Live;
      DataPointer(st, inum, NDIRECT);
      var indirect := bm.ReadBlock(ino.blocks[NDIRECT], ZeroBlock());
      var readSize, k, buf := n, 0, ZeroBlock();
      data := data0;
      while readSize < ino.size
        invariant 0 <= k && readSize == BLOCK_SIZE * (NDIRECT + k) && State() == st
        invariant data == FS.Content(st.disk, ino)[..Min(readSize, ino.size)]
        decreases ino.size - readSize
      {
        DataPointer(st, inum, NDIRECT + k);
        NextChunk(st.disk, ino, NDIRECT + k);
        TableEntry(st.disk, ino, k);
        var direct := ReadTable(indirect)[k];
        buf := bm.ReadBlock(direct, buf);
        data := data + buf[..Min(BLOCK_SIZE, ino.size - readSize)];
        k := k + 1;
        readSize := readSize + BLOCK_SIZE;
      }
    }

    /** Writes block `k` through the old pointer, or through a block taken for it; on a full disk that is
        block 0, and the write has fallen short. */
    method StoreBlock(mem: seq<Byte>, k: nat, orig: nat, ptr: Word, ghost st: FS.Store, ghost inum: nat,
                      ghost p: seq<nat>, ghost extra: set<nat>, ghost short: bool) returns (b: Word, ghost short': bool)
      requires bm.Valid() && BLOCK_SIZE * (k + 1) <= |mem|
      requires !short ==> FS.Inv(st) && FS.Writing(st, State(), inum, p, extra, mem) && k == |p| < MAXFILE
      requires !short ==> orig == BlockCount(FS.GetInode(st, inum).size) && (k < orig ==> ptr == FS.At(st, inum, k))
      modifies bm.Repr()
      ensures bm.Valid()
      ensures old(State()).marked <= State().marked
      ensures short' <==> short || (k >= orig && FS.Free(old(State())) == {})
      ensures short' && !short ==> b == 0
      ensures !short' ==> FS.Writing(st, State(), inum, p + [b as int], extra, mem)
      ensures !short' ==> |FS.Free(State())| == |old(FS.Free(State()))| - (if k < orig then 0 else 1)
      ensures if k < orig then b == ptr
              else b < BLOCK_NUM && (FS.Free(old(State())) != {} ==> b in FS.Free(old(State())))
                   && forall c :: c in FS.Free(old(State())) ==> b <= c
    {
      assert !short ==> FS.Live(st, inum);
      hide FS.Inv, FS.Writing, FS.Chunk;
      ghost var st1 := State();
      short' := short;
      if k < orig {
        b := ptr;
        if !short {
          DataPointer(st, inum, k);
        }
      } else {
        b := bm.AllocBlock();
        short' := short || FS.Free(st1) == {};
        assert FS.Free(State()) == FS.Free(st1) - {b as int};
      }
      if !short' {
        FS.WriteOne(st, st1, inum, p, extra, mem, b);
      }
      bm.WriteBlock(b, FS.Chunk(mem, k));
    }

    /** One block through a pointer of the inode. */
    method StoreDirect(mem: seq<Byte>, i: nat, cur: nat, orig: nat, blocks: Pointers,
                       ghost st: FS.Store, ghost inum: nat, ghost p: seq<nat>, ghost short: bool)
        returns (blocks': Pointers, ghost p': seq<nat>, ghost short': bool)
      requires bm.Valid() && FS.Inv(st) && i == |p| < NDIRECT && i < cur
      requires Direct(short, st, State(), inum, p, mem, blocks, orig, cur)
      modifies bm.Repr()
      ensures bm.Valid() && |p'| == i + 1
      ensures old(State()).marked <= State().marked
      ensures Direct(short', st, State(), inum, p', mem, blocks', orig, cur)
    {
      hide FS.Inv, FS.Writing;
      ghost var st1 := State();
      var b;
      b, short' := StoreBlock(mem, i, orig, blocks[i], st, inum, p, {}, short);
      if short {
        DirectStaysShort(st, inum, p, mem, blocks, orig, cur, b);
      } else if short' {
        DirectFallsShort(st, st1, inum, p, mem, blocks, orig, cur);
      } else {
        DirectStep(st, st1, State(), inum, p, mem, blocks, orig, cur, b);
      }
      blocks', p' := blocks[i := b], p + [b as int];
    }

    /** The first NDIRECT blocks, through the pointers in the inode. */
    method WriteDirect(mem: seq<Byte>, cur: nat, orig: nat, blocks0: Pointers, ghost st: FS.Store, ghost inum: nat)
        returns (blocks: Pointers, ghost p: seq<nat>, ghost short: bool)
      requires bm.Valid() && FS.Inv(st)
      requires WritingDirect(st, State(), inum, [], mem, blocks0, orig, cur)
      modifies bm.Repr()
      ensures bm.Valid() && |p| == Min(cur, NDIRECT)
      ensures old(State()).marked <= State().marked
      ensures Direct(short, st, State(), inum, p, mem, blocks, orig, cur)
    {
      blocks, p, short := blocks0, [], false;
      var i := 0;
      while i < NDIRECT && i < cur
        invariant i <= NDIRECT && i <= cur && |p| == i
        invariant bm.Valid() && old(State()).marked <= State().marked
        invariant Direct(short, st, State(), inum, p, mem, blocks, orig, cur)
        decreases NDIRECT - i
      {
        blocks, p, short := StoreDirect(mem, i, cur, orig, blocks, st, inum, p, short);
        i := i + 1;
      }
    }

    /** The pointer table: the old one, or a zero one in a block taken for it. */
    method OpenTable(mem: seq<Byte>, cur: nat, orig: nat, blocks0: Pointers,
                     ghost st: FS.Store, ghost inum: nat, ghost p: seq<nat>, ghost short: bool)
        returns (blocks: Pointers, table: PointerTable, ghost extra: set<nat>, ghost short': bool)
      requires bm.Valid() && FS.Inv(st) && FS.Live(st, inum) && |p| == NDIRECT < cur
      requires Direct(short, st, State(), inum, p, mem, blocks0, orig, cur)
      modifies bm.Repr()
      ensures bm.Valid() && blocks[NDIRECT] < BLOCK_NUM
      ensures old(State()).marked <= State().marked
      ensures Indirect(short', st, State(), inum, p, extra, mem, blocks, table, orig, cur)
    {
      hide FS.Inv, FS.Writing;
      ghost var st1 := State();
      blocks, extra, short' := blocks0, {}, short;
      if orig > NDIRECT {
        if !short {
          OpenOldTable(st, st1, inum, p, mem, blocks, orig, cur);
        }
        var buf := bm.ReadBlock(blocks[NDIRECT], ZeroBlock());
        table := ReadTable(buf);
        if short {
          TableStaysShort(st, inum, p, mem, blocks, orig, cur, table, blocks[NDIRECT]);
          assert blocks[NDIRECT := blocks[NDIRECT]] == blocks;
        }
      } else {
        var b := bm.AllocBlock();
        table := ZeroTable();
        if short {
          TableStaysShort(st, inum, p, mem, blocks, orig, cur, table, b);
        } else if FS.Free(st1) == {} {
          TableFallsShort(st, st1, inum, p, mem, blocks, orig, cur, table);
          short' := true;
        } else {
          OpenNewTable(st, st1, inum, p, mem, blocks, orig, cur, b);
        }
        blocks, extra := blocks[NDIRECT := b], {b};
      }
    }

    /** One block through an entry of the pointer table. */
    method StoreIndirect(mem: seq<Byte>, i: nat, cur: nat, orig: nat, ghost blocks: Pointers, table: PointerTable,
                         ghost st: FS.Store, ghost inum: nat, ghost p: seq<nat>, ghost extra: set<nat>, ghost short: bool)
        returns (table': PointerTable, ghost p': seq<nat>, ghost short': bool)
      requires bm.Valid() && FS.Inv(st) && NDIRECT <= i == |p| < cur
      requires Indirect(short, st, State(), inum, p, extra, mem, blocks, table, orig, cur)
      modifies bm.Repr()
      ensures bm.Valid() && |p'| == i + 1
      ensures old(State()).marked <= State().marked
      ensures Indirect(short', st, State(), inum, p', extra, mem, blocks, table', orig, cur)
    {
      hide FS.Inv, FS.Writing;
      ghost var st1 := State();
      var b;
      b, short' := StoreBlock(mem, i, orig, table[i - NDIRECT], st, inum, p, extra, short);
      if short {
        IndirectStaysShort(st, inum, p, mem, blocks, table, orig, cur, b);
      } else if short' {
        IndirectFallsShort(st, st1, inum, p, extra, mem, blocks, table, orig, cur);
      } else {
        IndirectStep(st, st1, State(), inum, p, extra, mem, blocks, table, orig, cur, b);
      }
      table', p' := table[i - NDIRECT := b], p + [b as int];
    }

    /** The blocks beyond the direct ones; the table is written back when the loop meets an index
        that the file does not use, and so not at all when it uses them all. */
    method WriteIndirect(mem: seq<Byte>, cur: nat, orig: nat, blocks: Pointers, table0: PointerTable, ghost st: FS.Store,
                         ghost inum: nat, ghost p0: seq<nat>, ghost extra: set<nat>, ghost short0: bool)
        returns (ghost table: PointerTable, ghost p: seq<nat>, ghost st1: FS.Store, ghost short: bool)
      requires bm.Valid() && FS.Inv(st) && |p0| == NDIRECT < cur <= MAXFILE && blocks[NDIRECT] < BLOCK_NUM
      requires Indirect(short0, st, State(), inum, p0, extra, mem, blocks, table0, orig, cur)
      modifies bm.Repr()
      ensures bm.Valid() && |p| == cur
      ensures old(State()).marked <= State().marked
      ensures Indirect(short, st, st1, inum, p, extra, mem, blocks, table, orig, cur)
      ensures State() == if cur < MAXFILE then FS.PutBlock(st1, blocks[NDIRECT], TableBlock(table)) else st1
    {
      hide FS.Inv, Indirect;
      var entries := table0;
      table, p, st1, short := table0, p0, State(), short0;
      var i := NDIRECT;
      while i < NDIRECT + NINDIRECT
        invariant NDIRECT <= i <= cur && |p| == i && bm.Valid() && table == entries && st1 == State()
        invariant old(State()).marked <= State().marked
        invariant Indirect(short, st, st1, inum, p, extra, mem, blocks, table, orig, cur)
        decreases NDIRECT + NINDIRECT - i
      {
        if i < cur {
          entries, p, short := StoreIndirect(mem, i, cur, orig, blocks, entries, st, inum, p, extra, short);
          table, st1 := entries, State();
        } else {
          bm.WriteBlock(blocks[NDIRECT], TableBlock(entries));
          break;
        }
        i := i + 1;
      }
    }

    /** Replaces the contents of a file. `slack` is whatever lies in memory after the buffer: the last
        block is always copied whole. The store keeps its invariant exactly when the file stays below
        MAXFILE blocks and there is room for it. */
    method WriteFile(inum: nat, buf: seq<Byte>, slack: seq<Byte>)
      requires Valid() && |slack| >= BLOCK_SIZE && |buf| < INT_LIMIT
      modifies bm.Repr()
      ensures bm.Valid() && old(State()).marked <= State().marked
      ensures FS.Live(old(State()), inum) ==> (FS.Inv(State()) <==> FS.Room(old(State()), inum, |buf|))
      ensures FS.Live(old(State()), inum) && FS.Room(old(State()), inum, |buf|) ==>
                FS.Files(State()) == FS.Files(old(State()))[inum := FS.Files(old(State()))[inum].(data := buf)]
      ensures FS.Live(old(State()), inum) && FS.Room(old(State()), inum, |buf|) ==>
                (FS.Exact(State()) <==> FS.Exact(old(State())) && FS.Blocks(old(State()), inum) <= BlockCount(|buf|))
      ensures FS.Live(old(State()), inum) && FS.Room(old(State()), inum, |buf|) ==>
                |FS.Free(State())| == |FS.Free(old(State()))| - Needed(FS.Blocks(old(State()), inum), BlockCount(|buf|))
      ensures FS.Live(old(State()), inum) && BlockCount(|buf|) >= MAXFILE
              && Needed(FS.Blocks(old(State()), inum), MAXFILE) <= |FS.Free(old(State()))| ==>
                FS.TableNotStored(old(State()), State(), inum, |buf|)
      ensures !FS.Live(old(State()), inum) ==> State() == old(State())
    {
      ghost var st := State();
      FS.InFiles(st, inum);
      var r := GetInode(inum);
      if r.Missing? {
        return;
      }
      hide FS.Inv, FS.Files, FS.Exact, FS.Written, FS.TableNotStored, WritingDirect, WritingIndirect, ShortDirect, ShortIndirect;
      hide FS.Room, FS.Free, FS.GetInode, Needed, Direct, Indirect, AllWritten;
      var ino := r.ino;
      var orig, n := BlockCount(ino.size), BlockCount(|buf|);
      var cur, mem := Min(n, MAXFILE), buf + slack;
      assert mem[..|buf|] == buf;
      var blocks, p, extra, table, st1, short := WriteBlocks(mem, cur, ino, st, inum);
      ino := ino.(size := |buf|, blocks := blocks);
      WriteFileDone(st, st1, inum, p, extra, mem, blocks, table, orig, cur, ino, short);
      PutInode(inum, ino);
    }

    /** Both loops: the blocks of the file, and its pointer table when it is stored. */
    method WriteBlocks(mem: seq<Byte>, cur: nat, ino: Inode, ghost st: FS.Store, ghost inum: nat)
        returns (blocks: Pointers, ghost p: seq<nat>, ghost extra: set<nat>, ghost table: PointerTable,
                 ghost st1: FS.Store, ghost short: bool)
      requires Valid() && State() == st && FS.Live(st, inum) && ino == FS.GetInode(st, inum)
      requires cur <= MAXFILE && BLOCK_SIZE * cur <= |mem|
      modifies bm.Repr()
      ensures bm.Valid() && old(State()).marked <= State().marked
      ensures AllWritten(short, st, st1, inum, p, extra, mem, blocks, table, BlockCount(ino.size), cur)
      ensures cur > NDIRECT ==> blocks[NDIRECT] < BLOCK_NUM
      ensures State() == if NDIRECT < cur < MAXFILE then FS.PutBlock(st1, blocks[NDIRECT], TableBlock(table)) else st1
    {
      hide FS.Inv, WritingDirect, ShortDirect, Indirect;
      var orig := BlockCount(ino.size);
      StartDirect(st, inum, mem, orig, cur);
      blocks, p, short := WriteDirect(mem, cur, orig, ino.blocks, st, inum);
      st1, table, extra := State(), ZeroTable(), {};
      if cur > NDIRECT {
        var entries;
        blocks, entries, extra, short := OpenTable(mem, cur, orig, blocks, st, inum, p, short);
        table, p, st1, short := WriteIndirect(mem, cur, orig, blocks, entries, st, inum, p, extra, short);
      }
    }

    method FreeInode(inum: nat)
      requires bm.Valid()
      modifies bm.Repr()
      ensures bm.Valid()
      ensures State() == if FS.Live(old(State()), inum) then FS.PutInode(old(State()), inum, NewInode(0)) else old(State())
    {
      var r := GetInode(inum);
      if r.Found? {
        PutInode(inum, NewInode(0));
      }
    }

    /** Gives back the data blocks of a file, its indirect block and its inode. */
    method RemoveFile(inum: nat)
      requires Valid()
      modifies bm.Repr()
      ensures Valid()
      ensures FS.Files(State()) == FS.Files(old(State())) - {inum}
      ensures forall b :: b in State().marked <==> b in old(State()).marked && !FS.FileOwns(old(State()), inum, b)
      ensures |FS.Free(State())| == |FS.Free(old(State()))| + Total(FS.Blocks(old(State()), inum))
      ensures FS.Exact(State()) <==> FS.Exact(old(State()))
    {
      hide FS.Inv, FS.FileOwns, FS.Exact, FS.Files;
      ghost var st := State();
      FS.InFiles(st, inum);
      var r := GetInode(inum);
      if r.Missing? {
        FS.OwnsNothing(st, inum);
        assert FS.Files(st) - {inum} == FS.Files(st);
        return;
      }
      ghost var freed := FreeFile(r.ino, st, inum);
      FS.RemoveDone(st, inum, freed);
      FS.CountFreed(st, State(), inum, freed);
      FreeInode(inum);
    }

    /** Unmarks the blocks of a file. */
    method FreeFile(ino: Inode, ghost st: FS.Store, ghost inum: nat) returns (ghost freed: set<nat>)
      requires Valid() && State() == st && FS.Live(st, inum) && ino == FS.GetInode(st, inum)
      modifies bm.Repr()
      ensures bm.Valid() && State() == st.(marked := st.marked - freed)
      ensures forall b :: b in freed <==> FS.FileOwns(st, inum, b)
    {
      hide FS.Inv, FS.FileOwns, FS.FirstBlocks;
      var n := BlockCount(ino.size);
      FS.AllBlocks(st, inum);
      FS.NoBlocks(st, inum);
      freed := {};
      var i := 0;
      while i < NDIRECT && i < n
        invariant 0 <= i <= NDIRECT && i <= n && bm.Valid()
        invariant freed == FS.FirstBlocks(st, inum, i) && State() == st.(marked := st.marked - freed)
        decreases NDIRECT - i
      {
        FS.OneMoreBlock(st, inum, i);
        bm.FreeBlock(ino.blocks[i]);
        freed := freed + {ino.blocks[i] as int};
        i := i + 1;
      }
      if n > NDIRECT {
        freed := FreeIndirect(ino, n, st, inum, freed);
      }
    }

    method FreeIndirect(ino: Inode, n: nat, ghost st: FS.Store, ghost inum: nat, ghost freed0: set<nat>)
        returns (ghost freed: set<nat>)
      requires bm.Valid() && FS.Inv(st) && FS.Live(st, inum) && ino == FS.GetInode(st, inum)
      requires n == BlockCount(ino.size) > NDIRECT && freed0 == FS.FirstBlocks(st, inum, NDIRECT)
      requires State() == st.(marked := st.marked - freed0)
      modifies bm.Repr()
      ensures bm.Valid() && State() == st.(marked := st.marked - freed)
      ensures freed == FS.FirstBlocks(st, inum, n) + {FS.At(st, inum, MAXFILE)}
    {
      assert FS.At(st, inum, MAXFILE) == ino.blocks[NDIRECT];
      hide FS.Inv, FS.FirstBlocks, FS.Ptr, FS.Live, FS.At;
      DataPointer(st, inum, NDIRECT);
      DataPointer(st, inum, n - 1);
      var buf := bm.ReadBlock(ino.blocks[NDIRECT], ZeroBlock());
      freed := FreeEntries(ReadTable(buf), n, ino, st, inum, freed0);
      bm.FreeBlock(ino.blocks[NDIRECT]);
      freed := freed + {ino.blocks[NDIRECT] as int};
    }

    /** The blocks that the entries of the table point to. */
    method FreeEntries(table: PointerTable, n: nat, ghost ino: Inode, ghost st: FS.Store, ghost inum: nat,
                       ghost freed0: set<nat>) returns (ghost freed: set<nat>)
      requires bm.Valid() && inum < INODE_NUM && ino == FS.GetInode(st, inum) && ino.blocks[NDIRECT] < BLOCK_NUM
      requires NDIRECT < n <= MAXFILE && table == ReadTable(st.disk[ino.blocks[NDIRECT]])
      requires freed0 == FS.FirstBlocks(st, inum, NDIRECT) && State() == st.(marked := st.marked - freed0)
      modifies bm.Repr()
      ensures bm.Valid() && State() == st.(marked := st.marked - freed)
      ensures freed == FS.FirstBlocks(st, inum, n)
    {
      hide FS.FirstBlocks, FS.Ptr, ReadTable, FS.GetInode;
      freed := freed0;
      var i := 0;
      while i < n - NDIRECT && i < NINDIRECT
        invariant 0 <= i <= n - NDIRECT && i <= NINDIRECT && bm.Valid()
        invariant freed == FS.FirstBlocks(st, inum, NDIRECT + i) && State() == st.(marked := st.marked - freed)
        decreases NINDIRECT - i
      {
        FS.OneMoreBlock(st, inum, NDIRECT + i);
        TableEntry(st.disk, ino, i);
        bm.FreeBlock(table[i]);
        freed := freed + {table[i] as int};
        i := i + 1;
      }
    }

    /** The caller clears the attributes first, so a missing inode leaves them zero. */
    method GetAttr(inum: nat) returns (a: Attr)
      requires Valid()
      ensures a == AttrOf(FS.Files(State()), inum)
    {
      FS.InFiles(State(), inum);
      var r := GetInode(inum);
      if r.Missing? {
        return Attr(0, 0, 0, 0, 0);
      }
      return Attr(SignExtend(r.ino.typ), r.ino.atime, r.ino.mtime, r.ino.ctime, r.ino.size);
    }
  }
}
