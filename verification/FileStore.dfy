/** The contents of the disk and the bitmap as a value: which blocks each file owns, what the files
    contain, and what a write does to both. */
module FileStore {
  import opened Wire
  import opened DiskFormat
  import opened ExtentSpec

  type Disk = d: seq<Block> | |d| == BLOCK_NUM witness BlankDisk()

  function BlankDisk(): (d: seq<Block>)
    ensures |d| == BLOCK_NUM
  {
    seq<Block>(BLOCK_NUM, _ => ZeroBlock())
  }

  datatype Store = Store(disk: Disk, marked: set<nat>)

  // ---------------------------------------------------------------- reading the store

  function GetInode(st: Store, i: nat): Inode
    requires i < INODE_NUM
  {
    ReadInode(st.disk[IBlock(i)], i % IPB)
  }

  function PutInode(st: Store, i: nat, ino: Inode): Store
    requires i < INODE_NUM
  {
    st.(disk := st.disk[IBlock(i) := WriteInode(st.disk[IBlock(i)], i % IPB, ino)])
  }

  function PutBlock(st: Store, b: nat, block: Block): Store
    requires b < BLOCK_NUM
  {
    st.(disk := st.disk[b := block])
  }

  predicate Live(st: Store, i: nat) {
    i < INODE_NUM && GetInode(st, i).typ != 0
  }

  /** The pointer at position `k` of a file: direct, then through the indirect block, which itself
      counts as position MAXFILE. */
  function Ptr(disk: Disk, ino: Inode, k: nat): nat {
    if k < NDIRECT then ino.blocks[k]
    else if k == MAXFILE then ino.blocks[NDIRECT]
    else if k < MAXFILE && ino.blocks[NDIRECT] < BLOCK_NUM then ReadTable(disk[ino.blocks[NDIRECT]])[k - NDIRECT]
    else 0
  }

  predicate Uses(ino: Inode, k: nat) {
    k < BlockCount(ino.size) || (k == MAXFILE && BlockCount(ino.size) > NDIRECT)
  }

  predicate Slot(st: Store, i: nat, k: nat) {
    Live(st, i) && Uses(GetInode(st, i), k)
  }

  function At(st: Store, i: nat, k: nat): nat
    requires i < INODE_NUM
  {
    Ptr(st.disk, GetInode(st, i), k)
  }

  function ByteAt(disk: Disk, ino: Inode, p: nat): Byte {
    var b := Ptr(disk, ino, p / BLOCK_SIZE);
    if b < BLOCK_NUM then disk[b][p % BLOCK_SIZE] else 0
  }

  function Content(disk: Disk, ino: Inode): (data: seq<Byte>)
    ensures |data| == ino.size
  {
    seq(ino.size, p requires 0 <= p < ino.size => ByteAt(disk, ino, p))
  }

  function FileAt(st: Store, i: nat): File
    requires i < INODE_NUM
  {
    File(GetInode(st, i).typ, Content(st.disk, GetInode(st, i)))
  }

  function Files(st: Store): Table {
    map i: nat | i < INODE_NUM && Live(st, i) :: FileAt(st, i)
  }

  lemma InFiles(st: Store, i: nat)
    ensures i in Files(st) <==> Live(st, i)
    ensures Live(st, i) ==> Files(st)[i] == FileAt(st, i)
  {
  }

  /** The block count of a file; a file that is not there has none. */
  function Blocks(st: Store, i: nat): nat {
    if Live(st, i) then BlockCount(GetInode(st, i).size) else 0
  }

  // ---------------------------------------------------------------- ownership

  predicate IsData(b: nat) {
    FIRST_DATA <= b < BLOCK_NUM
  }

  predicate InodeOk(ino: Inode) {
    BlockCount(ino.size) < MAXFILE && ino.atime == 0 && ino.mtime == 0 && ino.ctime == 0
  }

  ghost predicate Owned(st: Store) {
    forall i, k :: Slot(st, i, k) ==> IsData(At(st, i, k)) && At(st, i, k) in st.marked
  }

  ghost predicate Disjoint(st: Store) {
    forall i, k, j, l :: Slot(st, i, k) && Slot(st, j, l) && At(st, i, k) == At(st, j, l) ==> i == j && k == l
  }

  ghost predicate MarkedOk(st: Store) {
    && (forall b: nat :: b < FIRST_DATA ==> b in st.marked)
    && (forall b :: b in st.marked ==> b < BLOCK_NUM)
  }

  /** Every block that a file uses is a data block, is marked, and is used in one place only. */
  ghost predicate Inv(st: Store) {
    && MarkedOk(st)
    && (forall i :: Live(st, i) ==> InodeOk(GetInode(st, i)))
    && Owned(st)
    && Disjoint(st)
  }

  ghost predicate HasOwner(st: Store, b: nat) {
    exists i, k :: Slot(st, i, k) && At(st, i, k) == b
  }

  /** A block that is marked but that no file uses: nothing will ever give it back. */
  ghost predicate Lost(st: Store, b: nat) {
    b in st.marked && IsData(b) && !HasOwner(st, b)
  }

  /** Nothing is lost: every marked block is reserved or used by a file. */
  ghost predicate Exact(st: Store) {
    forall b :: !Lost(st, b)
  }

  function Free(st: Store): set<nat> {
    Unmarked(st.marked)
  }

  function Unmarked(marked: set<nat>): set<nat> {
    set b: nat | b < BLOCK_NUM && b !in marked
  }

  /** The free blocks of a store in which only the blocks below `n` are marked. */
  lemma {:induction false} CountUnmarked(marked: set<nat>, n: nat)
    requires n <= BLOCK_NUM && forall b: nat :: b in marked <==> b < n
    ensures |Unmarked(marked)| == BLOCK_NUM - n
    decreases BLOCK_NUM - n
  {
    if n < BLOCK_NUM {
      CountUnmarked(marked + {n}, n + 1);
      assert Unmarked(marked) == Unmarked(marked + {n}) + {n};
    } else {
      assert Unmarked(marked) == {};
    }
  }

  // ---------------------------------------------------------------- inodes

  lemma IBlockBounds(i: nat)
    requires i < INODE_NUM
    ensures IBlock(i) < FIRST_DATA < BLOCK_NUM
  {
    InodeBlockIsReserved(BLOCK_NUM, BPB, INODE_NUM, IPB, i);
  }

  /** Writing an inode changes that inode and no other, and no mark. */
  lemma GetAfterPut(st: Store, i: nat, ino: Inode, j: nat)
    requires i < INODE_NUM && j < INODE_NUM
    ensures GetInode(PutInode(st, i, ino), j) == if i == j then ino else GetInode(st, j)
    ensures PutInode(st, i, ino).marked == st.marked
  {
    if i != j {
      InodePlacesDiffer(BLOCK_NUM, BPB, IPB, i, j);
    }
    ReadAfterWriteInode(st.disk[IBlock(i)], i % IPB, ino, j % IPB);
  }

  lemma DataAfterPut(st: Store, i: nat, ino: Inode, b: nat)
    requires i < INODE_NUM && IsData(b)
    ensures PutInode(st, i, ino).disk[b] == st.disk[b]
  {
    IBlockBounds(i);
  }

  // ---------------------------------------------------------------- files that are left alone

  /** A file whose inode and whose blocks are the same has the same pointers and contents. */
  lemma SameFile(d: Disk, d': Disk, ino: Inode)
    requires InodeOk(ino)
    requires forall k :: Uses(ino, k) ==> Ptr(d, ino, k) < BLOCK_NUM && d'[Ptr(d, ino, k)] == d[Ptr(d, ino, k)]
    ensures forall k :: Uses(ino, k) ==> Ptr(d', ino, k) == Ptr(d, ino, k)
    ensures Content(d', ino) == Content(d, ino)
  {
    if BlockCount(ino.size) > NDIRECT {
      assert Uses(ino, MAXFILE) && Ptr(d, ino, MAXFILE) == ino.blocks[NDIRECT];
    }
    forall p | 0 <= p < ino.size ensures ByteAt(d', ino, p) == ByteAt(d, ino, p) {
      assert Uses(ino, p / BLOCK_SIZE);
    }
  }

  /** A change that leaves alone the inode and the blocks of every file but `i`. */
  ghost predicate OnlyFile(st: Store, st': Store, i: nat) {
    && (forall j :: 0 <= j < INODE_NUM && j != i ==> GetInode(st', j) == GetInode(st, j))
    && (forall j, k :: j != i && Slot(st, j, k) && IsData(At(st, j, k)) ==> st'.disk[At(st, j, k)] == st.disk[At(st, j, k)])
  }

  lemma OtherFile(st: Store, st': Store, i: nat, j: nat)
    requires Inv(st) && OnlyFile(st, st', i) && j != i
    ensures Live(st', j) <==> Live(st, j)
    ensures forall k :: Slot(st', j, k) <==> Slot(st, j, k)
    ensures forall k :: Slot(st, j, k) ==> At(st', j, k) == At(st, j, k)
    ensures Live(st, j) ==> FileAt(st', j) == FileAt(st, j)
  {
    if Live(st, j) {
      var ino := GetInode(st, j);
      forall k | Uses(ino, k)
        ensures Ptr(st.disk, ino, k) < BLOCK_NUM && st'.disk[Ptr(st.disk, ino, k)] == st.disk[Ptr(st.disk, ino, k)] {
        assert Slot(st, j, k) && At(st, j, k) == Ptr(st.disk, ino, k);
      }
      SameFile(st.disk, st'.disk, ino);
    }
  }

  /** When only file `i` changes, the invariant comes down to the blocks of that file. */
  lemma OnlyFileKeepsInv(st: Store, st': Store, i: nat)
    requires Inv(st) && OnlyFile(st, st', i) && MarkedOk(st') && i < INODE_NUM
    requires Live(st', i) ==> InodeOk(GetInode(st', i))
    requires forall k :: Slot(st', i, k) ==> IsData(At(st', i, k)) && At(st', i, k) in st'.marked
    requires forall k, l :: Slot(st', i, k) && Slot(st', i, l) && At(st', i, k) == At(st', i, l) ==> k == l
    requires forall j, k :: j != i && Slot(st, j, k) ==> At(st, j, k) in st'.marked
    requires forall j, k, l :: j != i && Slot(st, j, k) && Slot(st', i, l) ==> At(st, j, k) != At(st', i, l)
    ensures Inv(st')
  {
    forall j | Live(st', j) ensures InodeOk(GetInode(st', j)) {
      if j != i {
        OtherFile(st, st', i, j);
      }
    }
    forall j, k | Slot(st', j, k) ensures IsData(At(st', j, k)) && At(st', j, k) in st'.marked {
      if j != i {
        OtherFile(st, st', i, j);
      }
    }
    forall a, k, b, l | Slot(st', a, k) && Slot(st', b, l) && At(st', a, k) == At(st', b, l) ensures a == b && k == l {
      if a != i {
        OtherFile(st, st', i, a);
      }
      if b != i {
        OtherFile(st, st', i, b);
      }
    }
  }

  lemma FilesAre(st: Store, m: Table)
    requires forall j :: j in m <==> Live(st, j)
    requires forall j :: j in m ==> j < INODE_NUM && m[j] == FileAt(st, j)
    ensures Files(st) == m
  {
  }

  lemma OnlyFileFiles(st: Store, st': Store, i: nat)
    requires Inv(st) && OnlyFile(st, st', i) && i < INODE_NUM
    ensures Files(st') == if Live(st', i) then Files(st)[i := FileAt(st', i)] else Files(st) - {i}
  {
    var m := if Live(st', i) then Files(st)[i := FileAt(st', i)] else Files(st) - {i};
    forall j: nat ensures (j in m <==> Live(st', j)) && (j in m ==> j < INODE_NUM && m[j] == FileAt(st', j)) {
      if j != i {
        OtherFile(st, st', i, j);
      }
    }
    FilesAre(st', m);
  }

  ghost predicate OwnedElsewhere(st: Store, i: nat, b: nat) {
    exists j, k :: j != i && Slot(st, j, k) && At(st, j, k) == b
  }

  /** When only file `i` changes, the owners afterwards are the other files as before and file `i`. */
  lemma OnlyFileOwners(st: Store, st': Store, i: nat, b: nat)
    requires Inv(st) && OnlyFile(st, st', i)
    ensures HasOwner(st', b) <==> OwnedElsewhere(st, i, b) || FileOwns(st', i, b)
  {
    if j, k :| j != i && Slot(st, j, k) && At(st, j, k) == b {
      OtherFile(st, st', i, j);
      assert Slot(st', j, k) && At(st', j, k) == b;
    }
    if j, k :| Slot(st', j, k) && At(st', j, k) == b && j != i {
      OtherFile(st, st', i, j);
      assert Slot(st, j, k) && At(st, j, k) == b;
    }
  }

  /** So what is lost afterwards depends on the marks and on the blocks of file `i` only. */
  lemma OnlyFileLost(st: Store, st': Store, i: nat, b: nat)
    requires Inv(st) && OnlyFile(st, st', i)
    ensures Lost(st, b) <==> b in st.marked && IsData(b) && !OwnedElsewhere(st, i, b) && !FileOwns(st, i, b)
    ensures Lost(st', b) <==> b in st'.marked && IsData(b) && !OwnedElsewhere(st, i, b) && !FileOwns(st', i, b)
  {
    OnlyFileOwners(st, st, i, b);
    OnlyFileOwners(st, st', i, b);
  }

  lemma ExactlyTheSame(st: Store, st': Store)
    requires forall b: nat :: Lost(st', b) <==> Lost(st, b)
    ensures Exact(st') <==> Exact(st)
  {
  }

  // ---------------------------------------------------------------- creating

  /** A new inode owns nothing; with a type whose 16 bits are zero it is not there at all. */
  lemma CreateDone(st: Store, i: nat, typ: Half)
    requires Inv(st) && i < INODE_NUM && !Live(st, i)
    ensures Inv(PutInode(st, i, NewInode(typ)))
    ensures Files(PutInode(st, i, NewInode(typ))) == if typ == 0 then Files(st) else Files(st)[i := File(typ, [])]
    ensures Exact(PutInode(st, i, NewInode(typ))) <==> Exact(st)
  {
    var ino := NewInode(typ);
    var st' := PutInode(st, i, ino);
    PutIsOnlyFile(st, i, ino);
    GetAfterPut(st, i, ino, i);
    NewFileIsEmpty(st'.disk, typ);
    OnlyFileKeepsInv(st, st', i);
    OnlyFileFiles(st, st', i);
    CreateKeepsLost(st, i, typ);
  }

  lemma CreateKeepsLost(st: Store, i: nat, typ: Half)
    requires Inv(st) && i < INODE_NUM && !Live(st, i)
    ensures Exact(PutInode(st, i, NewInode(typ))) <==> Exact(st)
  {
    var st' := PutInode(st, i, NewInode(typ));
    PutIsOnlyFile(st, i, NewInode(typ));
    GetAfterPut(st, i, NewInode(typ), i);
    NewFileIsEmpty(st'.disk, typ);
    OwnsNothing(st, i);
    OwnsNoBlock(st', i);
    hide Inv, OnlyFile, FileOwns, Lost, PutInode;
    forall b: nat ensures Lost(st', b) <==> Lost(st, b) {
      OnlyFileLost(st, st', i, b);
    }
    ExactlyTheSame(st, st');
  }

  lemma OwnsNoBlock(st: Store, i: nat)
    requires Live(st, i) ==> forall k :: !Uses(GetInode(st, i), k)
    ensures forall b :: !FileOwns(st, i, b)
  {
  }

  lemma OwnsNothing(st: Store, i: nat)
    requires !Live(st, i)
    ensures forall b :: !FileOwns(st, i, b)
  {
  }

  lemma NewFileIsEmpty(disk: Disk, typ: Half)
    ensures Content(disk, NewInode(typ)) == []
    ensures InodeOk(NewInode(typ)) && forall k :: !Uses(NewInode(typ), k)
  {
  }

  lemma PutIsOnlyFile(st: Store, i: nat, ino: Inode)
    requires i < INODE_NUM
    ensures OnlyFile(st, PutInode(st, i, ino), i)
  {
    forall j | 0 <= j < INODE_NUM && j != i ensures GetInode(PutInode(st, i, ino), j) == GetInode(st, j) {
      GetAfterPut(st, i, ino, j);
    }
    forall b: nat | IsData(b) ensures PutInode(st, i, ino).disk[b] == st.disk[b] {
      DataAfterPut(st, i, ino, b);
    }
  }

  // ---------------------------------------------------------------- removing

  ghost predicate FileOwns(st: Store, i: nat, b: nat) {
    exists k :: Slot(st, i, k) && At(st, i, k) == b
  }

  /** The blocks behind the first `n` pointers of a file. */
  function FirstBlocks(st: Store, i: nat, n: nat): set<nat>
    requires i < INODE_NUM
  {
    set k: nat | k < n :: At(st, i, k)
  }

  lemma NoBlocks(st: Store, i: nat)
    requires i < INODE_NUM
    ensures FirstBlocks(st, i, 0) == {}
  {
  }

  lemma OneMoreBlock(st: Store, i: nat, n: nat)
    requires i < INODE_NUM
    ensures FirstBlocks(st, i, n + 1) == FirstBlocks(st, i, n) + {At(st, i, n)}
  {
    forall b | b in FirstBlocks(st, i, n + 1) ensures b in FirstBlocks(st, i, n) + {At(st, i, n)} {
      var k: nat :| k < n + 1 && At(st, i, k) == b;
      assert k < n ==> At(st, i, k) in FirstBlocks(st, i, n);
    }
  }

  /** The data blocks and, if there is one, the indirect block are all that a file owns. */
  lemma AllBlocks(st: Store, i: nat)
    requires Live(st, i)
    ensures var n := BlockCount(GetInode(st, i).size);
            forall b :: FileOwns(st, i, b) <==> b in FirstBlocks(st, i, n) || (n > NDIRECT && b == At(st, i, MAXFILE))
  {
    var n := BlockCount(GetInode(st, i).size);
    forall b | b in FirstBlocks(st, i, n) ensures FileOwns(st, i, b) {
      var k: nat :| k < n && At(st, i, k) == b;
      assert Slot(st, i, k);
    }
    assert n > NDIRECT ==> Slot(st, i, MAXFILE);
  }

  lemma FirstBlocksDiffer(st: Store, i: nat, n: nat, k: nat)
    requires Inv(st) && Slot(st, i, k) && (n <= k || k == MAXFILE) && n <= BlockCount(GetInode(st, i).size)
    ensures At(st, i, k) !in FirstBlocks(st, i, n)
  {
    forall j: nat | j < n ensures At(st, i, j) != At(st, i, k) {
      assert Slot(st, i, j);
    }
  }

  lemma {:induction false} CountFirstBlocks(st: Store, i: nat, n: nat)
    requires Inv(st) && Live(st, i) && n <= BlockCount(GetInode(st, i).size)
    ensures |FirstBlocks(st, i, n)| == n
  {
    hide Inv, FirstBlocks;
    if n > 0 {
      CountFirstBlocks(st, i, n - 1);
      OneMoreBlock(st, i, n - 1);
      FirstBlocksDiffer(st, i, n - 1, n - 1);
    } else {
      NoBlocks(st, i);
    }
  }

  lemma FreedWasMarked(st: Store, st': Store, i: nat, freed: set<nat>)
    requires Inv(st) && st'.marked == st.marked - freed
    requires forall b :: b in freed <==> FileOwns(st, i, b)
    ensures Free(st') == Free(st) + freed && Free(st) !! freed
  {
    forall b | b in freed ensures b < BLOCK_NUM && b in st.marked {
      var k :| Slot(st, i, k) && At(st, i, k) == b;
    }
  }

  /** Removing a file frees one block for each of its data blocks and one for its indirect block. */
  lemma CountFreed(st: Store, st': Store, i: nat, freed: set<nat>)
    requires Inv(st) && Live(st, i) && st'.marked == st.marked - freed
    requires forall b :: b in freed <==> FileOwns(st, i, b)
    ensures |Free(st')| == |Free(st)| + Total(Blocks(st, i))
  {
    hide Inv, FileOwns, FirstBlocks;
    var n := BlockCount(GetInode(st, i).size);
    var data := FirstBlocks(st, i, n);
    CountFirstBlocks(st, i, n);
    AllBlocks(st, i);
    if n > NDIRECT {
      FirstBlocksDiffer(st, i, n, MAXFILE);
      assert freed == data + {At(st, i, MAXFILE)};
    } else {
      assert freed == data;
    }
    FreedWasMarked(st, st', i, freed);
  }

  lemma OnlyFileAnyMarks(st: Store, st1: Store, st2: Store, i: nat)
    requires OnlyFile(st, st1, i) && st1.disk == st2.disk
    ensures OnlyFile(st, st2, i)
    ensures forall j :: 0 <= j < INODE_NUM ==> GetInode(st2, j) == GetInode(st1, j)
  {
  }

  /** Unmarking exactly the blocks of a file and clearing its inode removes that file only. */
  lemma RemoveDone(st: Store, i: nat, freed: set<nat>)
    requires Inv(st) && Live(st, i)
    requires forall b :: b in freed <==> FileOwns(st, i, b)
    ensures Inv(PutInode(st.(marked := st.marked - freed), i, NewInode(0)))
    ensures Files(PutInode(st.(marked := st.marked - freed), i, NewInode(0))) == Files(st) - {i}
    ensures Exact(PutInode(st.(marked := st.marked - freed), i, NewInode(0))) <==> Exact(st)
  {
    var st' := PutInode(st.(marked := st.marked - freed), i, NewInode(0));
    RemoveIsOnlyFile(st, i, freed);
    forall b | b in freed ensures IsData(b) {
    }
    OnlyFileKeepsInv(st, st', i);
    OnlyFileFiles(st, st', i);
    RemoveKeepsLost(st, i, freed);
  }

  lemma RemoveIsOnlyFile(st: Store, i: nat, freed: set<nat>)
    requires Inv(st) && i < INODE_NUM
    ensures var st' := PutInode(st.(marked := st.marked - freed), i, NewInode(0));
      OnlyFile(st, st', i) && !Live(st', i) && st'.marked == st.marked - freed
  {
    var st' := PutInode(st.(marked := st.marked - freed), i, NewInode(0));
    PutIsOnlyFile(st, i, NewInode(0));
    GetAfterPut(st, i, NewInode(0), i);
    assert st'.disk == PutInode(st, i, NewInode(0)).disk;
    OnlyFileAnyMarks(st, PutInode(st, i, NewInode(0)), st', i);
  }

  lemma RemoveKeepsLost(st: Store, i: nat, freed: set<nat>)
    requires Inv(st) && Live(st, i)
    requires forall b :: b in freed <==> FileOwns(st, i, b)
    ensures Exact(PutInode(st.(marked := st.marked - freed), i, NewInode(0))) <==> Exact(st)
  {
    var st' := PutInode(st.(marked := st.marked - freed), i, NewInode(0));
    RemoveIsOnlyFile(st, i, freed);
    OwnsNothing(st', i);
    hide Inv, OnlyFile, FileOwns, Lost, PutInode;
    forall b: nat ensures Lost(st', b) <==> Lost(st, b) {
      OnlyFileLost(st, st', i, b);
    }
    ExactlyTheSame(st, st');
  }

  // ---------------------------------------------------------------- writing

  /** Block `k` of the memory that starts at the caller's buffer. */
  function Chunk(mem: seq<Byte>, k: nat): Block
    requires BLOCK_SIZE * (k + 1) <= |mem|
  {
    mem[BLOCK_SIZE * k..BLOCK_SIZE * (k + 1)]
  }

  /** The pointers from position `from` on. */
  function Tail(p: seq<nat>, from: nat): set<nat> {
    set j | 0 <= j < |p| && from <= j :: p[j]
  }

  lemma TailAppend(p: seq<nat>, b: nat, from: nat)
    ensures Tail(p + [b], from) == if from <= |p| then Tail(p, from) + {b} else Tail(p, from)
  {
    var p' := p + [b];
    forall x | x in Tail(p, from) ensures x in Tail(p', from) {
      var j :| 0 <= j < |p| && from <= j && p[j] == x;
      assert p'[j] == x;
    }
    assert p'[|p|] == b;
    assert from <= |p| ==> p'[|p|] in Tail(p', from);
  }

  /** How far a write of file `i` has come: the first |p| blocks are written, through the pointers
      `p`; those below the old block count are the old ones, the others are newly taken, and so are
      the blocks `extra`. */
  ghost predicate Writing(st: Store, st': Store, i: nat, p: seq<nat>, extra: set<nat>, mem: seq<Byte>) {
    && Live(st, i)
    && |p| <= MAXFILE && BLOCK_SIZE * |p| <= |mem|
    && Chosen(st, i, p, extra)
    && st'.marked == st.marked + Tail(p, BlockCount(GetInode(st, i).size)) + extra
    && Stored(st.disk, st'.disk, p, mem)
  }

  ghost predicate Chosen(st: Store, i: nat, p: seq<nat>, extra: set<nat>)
    requires i < INODE_NUM
  {
    && (forall j :: 0 <= j < |p| ==> Place(st, i, j, p[j]))
    && AllDifferent(p)
    && (forall b :: b in extra ==> IsData(b) && b !in st.marked && b !in p)
  }

  /** Block `b` is where block `j` of the file goes: its old place, or one that was free. */
  predicate Place(st: Store, i: nat, j: nat, b: nat)
    requires i < INODE_NUM
  {
    IsData(b) && if j < BlockCount(GetInode(st, i).size) then b == At(st, i, j) else b !in st.marked
  }

  predicate AllDifferent(p: seq<nat>) {
    forall j, k :: 0 <= j < k < |p| ==> p[j] != p[k]
  }

  lemma OneMoreDifferent(p: seq<nat>, b: nat)
    requires AllDifferent(p) && b !in p
    ensures AllDifferent(p + [b])
  {
  }

  ghost predicate Stored(d: Disk, d': Disk, p: seq<nat>, mem: seq<Byte>)
    requires BLOCK_SIZE * |p| <= |mem|
  {
    && (forall j :: 0 <= j < |p| ==> p[j] < BLOCK_NUM && d'[p[j]] == Chunk(mem, j))
    && (forall b: nat :: b < BLOCK_NUM && b !in p ==> d'[b] == d[b])
  }

  lemma StoreNext(d: Disk, d': Disk, p: seq<nat>, mem: seq<Byte>, b: nat)
    requires BLOCK_SIZE * (|p| + 1) <= |mem| && Stored(d, d', p, mem) && b < BLOCK_NUM && b !in p
    ensures Stored(d, d'[b := Chunk(mem, |p|)], p + [b], mem)
  {
    assert forall x :: x in p + [b] <==> x in p || x == b;
    hide Chunk;
  }

  lemma ChooseNext(st: Store, i: nat, p: seq<nat>, extra: set<nat>, b: nat)
    requires i < INODE_NUM && Chosen(st, i, p, extra) && IsData(b) && b !in p && b !in extra
    requires if |p| < BlockCount(GetInode(st, i).size) then b == At(st, i, |p|) else b !in st.marked
    ensures Chosen(st, i, p + [b], extra)
  {
    assert Place(st, i, |p|, b);
    OneMoreDifferent(p, b);
    assert forall x :: x in p + [b] <==> x in p || x == b;
    hide Place, AllDifferent;
  }

  lemma WriteStarts(st: Store, i: nat, mem: seq<Byte>)
    requires Live(st, i)
    ensures Writing(st, st, i, [], {}, mem)
  {
    assert Tail([], BlockCount(GetInode(st, i).size)) == {};
  }

  lemma NextBlockIsNew(st: Store, st': Store, i: nat, p: seq<nat>, extra: set<nat>, mem: seq<Byte>, b: nat)
    requires Inv(st) && Writing(st, st', i, p, extra, mem) && b < BLOCK_NUM
    requires if |p| < BlockCount(GetInode(st, i).size) then b == At(st, i, |p|) else b !in st'.marked
    ensures IsData(b) && b !in p && b !in extra
  {
    var n := BlockCount(GetInode(st, i).size);
    assert |p| < n ==> Slot(st, i, |p|);
    forall j | 0 <= j < |p| ensures p[j] != b {
      if j < n {
        assert Slot(st, i, j);
      } else {
        assert p[j] in Tail(p, n);
      }
    }
  }

  /** The next block goes to the old pointer when there is one, and else to a block just taken. */
  lemma WriteOne(st: Store, st': Store, i: nat, p: seq<nat>, extra: set<nat>, mem: seq<Byte>, b: nat)
    requires Inv(st) && Writing(st, st', i, p, extra, mem)
    requires |p| < MAXFILE && BLOCK_SIZE * (|p| + 1) <= |mem| && b < BLOCK_NUM
    requires if |p| < BlockCount(GetInode(st, i).size) then b == At(st, i, |p|) else b !in st'.marked
    ensures IsData(b)
    ensures Writing(st,
                    Store(st'.disk[b := Chunk(mem, |p|)],
                          if |p| < BlockCount(GetInode(st, i).size) then st'.marked else st'.marked + {b}),
                    i, p + [b], extra, mem)
  {
    NextBlockIsNew(st, st', i, p, extra, mem, b);
    TailAppend(p, b, BlockCount(GetInode(st, i).size));
    StoreNext(st.disk, st'.disk, p, mem, b);
    ChooseNext(st, i, p, extra, b);
    hide Inv, Chosen, Stored, Tail, Chunk;
  }

  /** A block taken for the pointer table is none of the data blocks. */
  lemma TakeExtra(st: Store, st': Store, i: nat, p: seq<nat>, mem: seq<Byte>, b: nat)
    requires Inv(st) && Writing(st, st', i, p, {}, mem) && b < BLOCK_NUM && b !in st'.marked
    ensures IsData(b) && Writing(st, st'.(marked := st'.marked + {b}), i, p, {b}, mem)
  {
    forall j | 0 <= j < |p| ensures p[j] != b {
      if j < BlockCount(GetInode(st, i).size) {
        assert Slot(st, i, j);
      } else {
        assert p[j] in Tail(p, BlockCount(GetInode(st, i).size));
      }
    }
  }

  /** While data blocks are written, the old pointer table stays as it was. */
  lemma OldTable(st: Store, st': Store, i: nat, p: seq<nat>, extra: set<nat>, mem: seq<Byte>)
    requires Inv(st) && Writing(st, st', i, p, extra, mem) && BlockCount(GetInode(st, i).size) > NDIRECT
    ensures var b := GetInode(st, i).blocks[NDIRECT];
            && IsData(b)
            && forall j :: NDIRECT <= j < BlockCount(GetInode(st, i).size) ==>
                 ReadTable(st'.disk[b])[j - NDIRECT] == At(st, i, j)
  {
    assert Slot(st, i, MAXFILE);
    forall j | 0 <= j < |p| ensures p[j] != GetInode(st, i).blocks[NDIRECT] {
      if j < BlockCount(GetInode(st, i).size) {
        assert Slot(st, i, j);
      }
    }
  }

  /** The inode and the pointer table hold the pointers `p`. */
  ghost predicate Points(ino: Inode, table: PointerTable, p: seq<nat>) {
    && BlockCount(ino.size) == |p| < MAXFILE
    && (forall j :: 0 <= j < |p| && j < NDIRECT ==> ino.blocks[j] == p[j])
    && (forall j :: NDIRECT <= j < |p| ==> table[j - NDIRECT] == p[j])
  }

  function WriteTable(st: Store, ino: Inode, table: PointerTable): Store
    requires BlockCount(ino.size) > NDIRECT ==> ino.blocks[NDIRECT] < BLOCK_NUM
  {
    if BlockCount(ino.size) > NDIRECT then PutBlock(st, ino.blocks[NDIRECT], TableBlock(table)) else st
  }

  /** The blocks of the file before and after a write that is ready to be finished: the indirect
      block is the old one when there was one, and else a block just taken. */
  ghost predicate Written(st: Store, st1: Store, i: nat, p: seq<nat>, extra: set<nat>, mem: seq<Byte>,
                          ino: Inode, table: PointerTable) {
    && Writing(st, st1, i, p, extra, mem)
    && Points(ino, table, p)
    && ino.size <= |mem|
    && ino == GetInode(st, i).(size := ino.size, blocks := ino.blocks)
    && (if |p| <= NDIRECT then extra == {}
        else if BlockCount(GetInode(st, i).size) > NDIRECT then
          extra == {} && ino.blocks[NDIRECT] == At(st, i, MAXFILE)
        else extra == {ino.blocks[NDIRECT]})
  }

  /** The indirect block is a data block of this file only, and holds none of its data. */
  lemma IndirectBlock(st: Store, st1: Store, i: nat, p: seq<nat>, extra: set<nat>, mem: seq<Byte>,
                      ino: Inode, table: PointerTable)
    requires Inv(st) && Written(st, st1, i, p, extra, mem, ino, table) && |p| > NDIRECT
    ensures var b := ino.blocks[NDIRECT];
            IsData(b) && b !in p && b in st1.marked && forall j, k :: j != i && Slot(st, j, k) ==> At(st, j, k) != b
  {
    if BlockCount(GetInode(st, i).size) > NDIRECT {
      assert Slot(st, i, MAXFILE);
      forall j | 0 <= j < |p| ensures p[j] != ino.blocks[NDIRECT] {
        if j < BlockCount(GetInode(st, i).size) {
          assert Slot(st, i, j);
        }
      }
    } else {
      assert ino.blocks[NDIRECT] in extra;
    }
  }

  lemma PointersAfter(d: Disk, ino: Inode, table: PointerTable, p: seq<nat>, k: nat)
    requires Points(ino, table, p) && k < |p|
    requires |p| > NDIRECT ==> ino.blocks[NDIRECT] < BLOCK_NUM && d[ino.blocks[NDIRECT]] == TableBlock(table)
    ensures Ptr(d, ino, k) == p[k]
  {
    ReadAfterWriteTable(table);
  }

  /** Reading back through the pointers gives the bytes that were written. */
  lemma ContentAfter(d: Disk, ino: Inode, p: seq<nat>, mem: seq<Byte>)
    requires BlockCount(ino.size) == |p| && ino.size <= |mem| && BLOCK_SIZE * |p| <= |mem|
    requires forall k :: 0 <= k < |p| ==> Ptr(d, ino, k) == p[k] && p[k] < BLOCK_NUM && d[p[k]] == Chunk(mem, k)
    ensures Content(d, ino) == mem[..ino.size]
  {
    forall q | 0 <= q < ino.size ensures ByteAt(d, ino, q) == mem[q] {
      var k := q / BLOCK_SIZE;
      assert 0 <= k < |p| && q == BLOCK_SIZE * k + q % BLOCK_SIZE;
      assert Ptr(d, ino, k) == p[k];
    }
  }

  lemma WriteIsOnlyFile(st: Store, st1: Store, i: nat, p: seq<nat>, extra: set<nat>, mem: seq<Byte>,
                        ino: Inode, table: PointerTable)
    requires Inv(st) && Written(st, st1, i, p, extra, mem, ino, table)
    requires |p| > NDIRECT ==> ino.blocks[NDIRECT] < BLOCK_NUM
    ensures OnlyFile(st, PutInode(WriteTable(st1, ino, table), i, ino), i)
  {
    var st2 := WriteTable(st1, ino, table);
    var st' := PutInode(st2, i, ino);
    if |p| > NDIRECT {
      IndirectBlock(st, st1, i, p, extra, mem, ino, table);
    }
    forall j | 0 <= j < INODE_NUM && j != i ensures GetInode(st', j) == GetInode(st, j) {
      IBlockBounds(j);
      GetAfterPut(st2, i, ino, j);
    }
    forall j, k | j != i && Slot(st, j, k) && IsData(At(st, j, k))
      ensures st'.disk[At(st, j, k)] == st.disk[At(st, j, k)] {
      DataAfterPut(st2, i, ino, At(st, j, k));
      WrittenElsewhere(st, st1, i, p, extra, mem, j, k);
    }
  }

  lemma WrittenElsewhere(st: Store, st': Store, i: nat, p: seq<nat>, extra: set<nat>, mem: seq<Byte>, j: nat, k: nat)
    requires Inv(st) && Writing(st, st', i, p, extra, mem) && j != i && Slot(st, j, k)
    ensures At(st, j, k) !in p
  {
    forall l | 0 <= l < |p| ensures p[l] != At(st, j, k) {
      if l < BlockCount(GetInode(st, i).size) {
        assert Slot(st, i, l);
      }
    }
  }

  /** The slots of the written file: its data pointers and, beyond the direct ones, its table. */
  lemma SlotsAfterWrite(st: Store, st1: Store, i: nat, p: seq<nat>, extra: set<nat>, mem: seq<Byte>,
                        ino: Inode, table: PointerTable)
    requires Inv(st) && Written(st, st1, i, p, extra, mem, ino, table)
    requires |p| > NDIRECT ==> ino.blocks[NDIRECT] < BLOCK_NUM
    ensures var st' := PutInode(WriteTable(st1, ino, table), i, ino);
            && GetInode(st', i) == ino
            && (forall k :: 0 <= k < |p| ==> At(st', i, k) == p[k] && st'.disk[p[k]] == Chunk(mem, k))
            && At(st', i, MAXFILE) == ino.blocks[NDIRECT]
  {
    var st2 := WriteTable(st1, ino, table);
    var st' := PutInode(st2, i, ino);
    GetAfterPut(st2, i, ino, i);
    if |p| > NDIRECT {
      IndirectBlock(st, st1, i, p, extra, mem, ino, table);
      DataAfterPut(st2, i, ino, ino.blocks[NDIRECT]);
    }
    forall k | 0 <= k < |p| ensures At(st', i, k) == p[k] && st'.disk[p[k]] == Chunk(mem, k) {
      PointersAfter(st'.disk, ino, table, p, k);
      DataAfterPut(st2, i, ino, p[k]);
    }
  }

  /** What a finished write means: the invariant holds, the file has the new bytes, every other file
      is as it was, and what is lost besides what was lost before is exactly what a smaller file does
      not use any more. */
  lemma WriteDone(st: Store, st1: Store, i: nat, p: seq<nat>, extra: set<nat>, mem: seq<Byte>,
                  ino: Inode, table: PointerTable)
    requires Inv(st) && Written(st, st1, i, p, extra, mem, ino, table)
    requires |p| > NDIRECT ==> ino.blocks[NDIRECT] < BLOCK_NUM
    ensures var st' := PutInode(WriteTable(st1, ino, table), i, ino);
            && Inv(st')
            && Files(st') == Files(st)[i := File(GetInode(st, i).typ, mem[..ino.size])]
            && (forall b: nat :: Lost(st', b) <==> Lost(st, b) || Dropped(st, i, |p|, b))
            && (Exact(st') <==> Exact(st) && BlockCount(GetInode(st, i).size) <= |p|)
  {
    var st' := PutInode(WriteTable(st1, ino, table), i, ino);
    WriteIsOnlyFile(st, st1, i, p, extra, mem, ino, table);
    SlotsAfterWrite(st, st1, i, p, extra, mem, ino, table);
    WriteKeepsInv(st, st1, i, p, extra, mem, ino, table);
    OnlyFileFiles(st, st', i);
    ContentAfter(st'.disk, ino, p, mem);
    forall b: nat ensures Lost(st', b) <==> Lost(st, b) || Dropped(st, i, |p|, b) {
      WriteLoses(st, st1, i, p, extra, mem, ino, table, b);
    }
    ExactAfterWrite(st, st', i, |p|);
  }

  /** A pointer of the written file is a marked data block that no other file uses. */
  lemma WrittenBlock(st: Store, st1: Store, i: nat, p: seq<nat>, extra: set<nat>, mem: seq<Byte>, k: nat)
    requires Inv(st) && Writing(st, st1, i, p, extra, mem) && k < |p|
    ensures IsData(p[k]) && p[k] in st1.marked
    ensures forall j, l :: j != i && Slot(st, j, l) ==> At(st, j, l) != p[k]
  {
    if k < BlockCount(GetInode(st, i).size) {
      assert Slot(st, i, k);
    } else {
      assert p[k] in Tail(p, BlockCount(GetInode(st, i).size));
    }
    forall j, l | j != i && Slot(st, j, l) ensures At(st, j, l) != p[k] {
      WrittenElsewhere(st, st1, i, p, extra, mem, j, l);
    }
  }

  lemma MarksWhileWriting(st: Store, st1: Store, i: nat, p: seq<nat>, extra: set<nat>, mem: seq<Byte>)
    requires Inv(st) && Writing(st, st1, i, p, extra, mem)
    ensures MarkedOk(st1) && st.marked <= st1.marked
  {
  }

  lemma WriteKeepsInv(st: Store, st1: Store, i: nat, p: seq<nat>, extra: set<nat>, mem: seq<Byte>,
                      ino: Inode, table: PointerTable)
    requires Inv(st) && Written(st, st1, i, p, extra, mem, ino, table)
    requires |p| > NDIRECT ==> ino.blocks[NDIRECT] < BLOCK_NUM
    requires OnlyFile(st, PutInode(WriteTable(st1, ino, table), i, ino), i)
    ensures Inv(PutInode(WriteTable(st1, ino, table), i, ino))
  {
    var st' := PutInode(WriteTable(st1, ino, table), i, ino);
    SlotsAfterWrite(st, st1, i, p, extra, mem, ino, table);
    MarksWhileWriting(st, st1, i, p, extra, mem);
    if |p| > NDIRECT {
      IndirectBlock(st, st1, i, p, extra, mem, ino, table);
    }
    assert NewBlocks(st, st', i, p) by {
      forall k | 0 <= k < |p|
        ensures IsData(p[k]) && p[k] in st1.marked && forall j, l :: j != i && Slot(st, j, l) ==> At(st, j, l) != p[k] {
        WrittenBlock(st, st1, i, p, extra, mem, k);
      }
    }
    SlotsKeepInv(st, st', i, p);
  }

  /** The data pointers of the written file: distinct, marked, and used by no other file. */
  ghost predicate NewBlocks(st: Store, st': Store, i: nat, p: seq<nat>) {
    && (forall k :: 0 <= k < |p| ==> IsData(p[k]) && p[k] in st'.marked)
    && (forall k, l :: 0 <= k < l < |p| ==> p[k] != p[l])
    && (forall j, l, k :: j != i && Slot(st, j, l) && 0 <= k < |p| ==> At(st, j, l) != p[k])
  }

  /** The same conclusion from the pointers alone. */
  lemma SlotsKeepInv(st: Store, st': Store, i: nat, p: seq<nat>)
    requires Inv(st) && OnlyFile(st, st', i) && i < INODE_NUM && st.marked <= st'.marked && MarkedOk(st')
    requires InodeOk(GetInode(st', i)) && BlockCount(GetInode(st', i).size) == |p|
    requires NewBlocks(st, st', i, p) && forall k :: 0 <= k < |p| ==> At(st', i, k) == p[k]
    requires |p| > NDIRECT ==>
               var b := At(st', i, MAXFILE);
               IsData(b) && b in st'.marked && b !in p && forall j, l :: j != i && Slot(st, j, l) ==> At(st, j, l) != b
    ensures Inv(st')
  {
    OnlyFileKeepsInv(st, st', i);
  }

  /** A block of file `i` that a file of `n` blocks does not use. */
  ghost predicate Dropped(st: Store, i: nat, n: nat, b: nat) {
    exists k :: Slot(st, i, k) && At(st, i, k) == b && !Within(k, n)
  }

  /** A block is dropped exactly when the file gets fewer blocks. */
  lemma ShrinkingDrops(st: Store, i: nat, n: nat)
    requires Inv(st) && Live(st, i)
    ensures (exists b: nat :: Dropped(st, i, n, b)) <==> BlockCount(GetInode(st, i).size) > n
  {
    if BlockCount(GetInode(st, i).size) > n {
      assert Slot(st, i, n) && At(st, i, n) == At(st, i, n);
      assert Dropped(st, i, n, At(st, i, n));
    }
  }

  lemma ExactAfterWrite(st: Store, st': Store, i: nat, n: nat)
    requires Inv(st) && Live(st, i)
    requires forall b: nat :: Lost(st', b) <==> Lost(st, b) || Dropped(st, i, n, b)
    ensures Exact(st') <==> Exact(st) && BlockCount(GetInode(st, i).size) <= n
  {
    ShrinkingDrops(st, i, n);
  }

  /** Where position `k` of a file is used by a file of `n` blocks. */
  predicate Within(k: nat, n: nat) {
    (if k == MAXFILE then NDIRECT else k) < n
  }

  lemma NewSlotIsOld(st: Store, st1: Store, i: nat, p: seq<nat>, extra: set<nat>, mem: seq<Byte>,
                     ino: Inode, table: PointerTable, k: nat)
    requires Inv(st) && Written(st, st1, i, p, extra, mem, ino, table)
    requires |p| > NDIRECT ==> ino.blocks[NDIRECT] < BLOCK_NUM
    ensures var st' := PutInode(WriteTable(st1, ino, table), i, ino);
      Slot(st', i, k) && At(st', i, k) in st.marked ==>
        Slot(st, i, k) && At(st, i, k) == At(st', i, k) && Within(k, |p|)
  {
    SlotsAfterWrite(st, st1, i, p, extra, mem, ino, table);
    hide Inv, PutInode, WriteTable, Ptr;
  }

  lemma OldSlotIsKept(st: Store, st1: Store, i: nat, p: seq<nat>, extra: set<nat>, mem: seq<Byte>,
                      ino: Inode, table: PointerTable, k: nat)
    requires Inv(st) && Written(st, st1, i, p, extra, mem, ino, table)
    requires |p| > NDIRECT ==> ino.blocks[NDIRECT] < BLOCK_NUM
    requires Slot(st, i, k) && Within(k, |p|)
    ensures var st' := PutInode(WriteTable(st1, ino, table), i, ino);
      Slot(st', i, k) && At(st', i, k) == At(st, i, k)
  {
    SlotsAfterWrite(st, st1, i, p, extra, mem, ino, table);
    assert k == MAXFILE || k < BlockCount(GetInode(st, i).size);
    assert k != MAXFILE ==> p[k] == At(st, i, k);
    assert k == MAXFILE ==> ino.blocks[NDIRECT] == At(st, i, MAXFILE);
    hide Inv, Written, PutInode, WriteTable, Ptr;
    assert Uses(ino, k);
  }

  /** Of the blocks marked before the write, the file has those that it had and did not drop. */
  lemma KeptBlocks(st: Store, st1: Store, i: nat, p: seq<nat>, extra: set<nat>, mem: seq<Byte>,
                   ino: Inode, table: PointerTable, b: nat)
    requires Inv(st) && Written(st, st1, i, p, extra, mem, ino, table)
    requires |p| > NDIRECT ==> ino.blocks[NDIRECT] < BLOCK_NUM
    requires b in st.marked
    ensures FileOwns(PutInode(WriteTable(st1, ino, table), i, ino), i, b) <==> FileOwns(st, i, b) && !Dropped(st, i, |p|, b)
  {
    var st' := PutInode(WriteTable(st1, ino, table), i, ino);
    assert Disjoint(st);
    hide Inv, Written, PutInode, WriteTable, Slot, At;
    if k :| Slot(st', i, k) && At(st', i, k) == b {
      NewSlotIsOld(st, st1, i, p, extra, mem, ino, table, k);
    }
    if k :| Slot(st, i, k) && At(st, i, k) == b && !Dropped(st, i, |p|, b) {
      OldSlotIsKept(st, st1, i, p, extra, mem, ino, table, k);
    }
  }

  lemma WriteLoses(st: Store, st1: Store, i: nat, p: seq<nat>, extra: set<nat>, mem: seq<Byte>,
                   ino: Inode, table: PointerTable, b: nat)
    requires Inv(st) && Written(st, st1, i, p, extra, mem, ino, table)
    requires |p| > NDIRECT ==> ino.blocks[NDIRECT] < BLOCK_NUM
    requires OnlyFile(st, PutInode(WriteTable(st1, ino, table), i, ino), i)
    ensures Lost(PutInode(WriteTable(st1, ino, table), i, ino), b) <==> Lost(st, b) || Dropped(st, i, |p|, b)
  {
    var st' := PutInode(WriteTable(st1, ino, table), i, ino);
    OnlyFileLost(st, st', i, b);
    MarksWhileWriting(st, st1, i, p, extra, mem);
    if b in st.marked {
      KeptBlocks(st, st1, i, p, extra, mem, ino, table, b);
    } else if b in st1.marked {
      SlotsAfterWrite(st, st1, i, p, extra, mem, ino, table);
      TakenHasOwner(st, st1, i, p, extra, mem, st', b);
    }
  }

  lemma TakenHasOwner(st: Store, st1: Store, i: nat, p: seq<nat>, extra: set<nat>, mem: seq<Byte>, st': Store, b: nat)
    requires Writing(st, st1, i, p, extra, mem) && b in st1.marked && b !in st.marked
    requires Live(st', i) && BlockCount(GetInode(st', i).size) == |p|
    requires forall k :: 0 <= k < |p| ==> At(st', i, k) == p[k]
    requires b in extra ==> |p| > NDIRECT && At(st', i, MAXFILE) == b
    ensures FileOwns(st', i, b)
  {
    if b in extra {
      assert Slot(st', i, MAXFILE);
    } else {
      var k :| 0 <= k < |p| && p[k] == b;
      assert Slot(st', i, k) && At(st', i, k) == b;
    }
  }

  // ---------------------------------------------------------------- writes that do not fit

  /** The pointers of a file that an unfinished allocation left behind: block 0 among them. */
  ghost predicate PointsToZero(ino: Inode, table: PointerTable, p: seq<nat>) {
    Points(ino, table, p) && (0 in p || (|p| > NDIRECT && ino.blocks[NDIRECT] == 0))
  }

  /** Block 0 is what a full disk hands out. A file that points to it breaks ownership, whatever else
      the store holds. */
  lemma ZeroBreaksOwnership(st: Store, i: nat, p: seq<nat>, ino: Inode, table: PointerTable)
    requires i < INODE_NUM && ino.typ != 0 && PointsToZero(ino, table, p)
    requires |p| > NDIRECT ==> ino.blocks[NDIRECT] < BLOCK_NUM
    ensures !Inv(PutInode(WriteTable(st, ino, table), i, ino))
  {
    var st' := PutInode(WriteTable(st, ino, table), i, ino);
    GetAfterPut(WriteTable(st, ino, table), i, ino, i);
    assert |p| > NDIRECT ==> Uses(ino, MAXFILE);
    assert forall k :: 0 <= k < |p| ==> Uses(ino, k);
    if |p| > NDIRECT && !IsData(ino.blocks[NDIRECT]) {
      hide Inv, PutInode;
      StrayPointer(st', i, MAXFILE);
    } else {
      var k :| 0 <= k < |p| && p[k] == 0;
      StoredPointer(st, i, p, ino, table, k);
      hide Inv, PutInode, Ptr;
      StrayPointer(st', i, k);
    }
  }

  lemma StoredPointer(st: Store, i: nat, p: seq<nat>, ino: Inode, table: PointerTable, k: nat)
    requires i < INODE_NUM && Points(ino, table, p) && k < |p|
    requires |p| > NDIRECT ==> IsData(ino.blocks[NDIRECT])
    ensures At(PutInode(WriteTable(st, ino, table), i, ino), i, k) == p[k]
  {
    var st2 := WriteTable(st, ino, table);
    GetAfterPut(st2, i, ino, i);
    if |p| > NDIRECT {
      DataAfterPut(st2, i, ino, ino.blocks[NDIRECT]);
    }
    hide PutInode, ReadTable, TableBlock;
    PointersAfter(PutInode(st2, i, ino).disk, ino, table, p, k);
  }

  lemma StrayPointer(st: Store, i: nat, k: nat)
    requires Slot(st, i, k) && !IsData(At(st, i, k))
    ensures !Inv(st)
  {
  }

  /** A file of `size` bytes can be stored in place of file `i`. */
  ghost predicate Room(st: Store, i: nat, size: nat) {
    BlockCount(size) < MAXFILE && Needed(Blocks(st, i), BlockCount(size)) <= |Free(st)|
  }

  lemma TooBigIsInvalid(st: Store, i: nat)
    requires Live(st, i) && BlockCount(GetInode(st, i).size) >= MAXFILE
    ensures !Inv(st)
  {
  }

  /** What is left of a write of MAXFILE blocks or more: the inode has the new size, but its indirect
      block, the old one or one just taken, holds what it held before. */
  ghost predicate TableNotStored(st: Store, st': Store, i: nat, size: nat) {
    && Live(st', i) && GetInode(st', i).size == size
    && var b := GetInode(st', i).blocks[NDIRECT];
       && IsData(b) && st'.disk[b] == st.disk[b] && st'.disk[0] == st.disk[0]
       && (if Blocks(st, i) > NDIRECT then b == At(st, i, MAXFILE) else b !in st.marked)
  }

  lemma TooManyBlocks(st: Store, st1: Store, i: nat, p: seq<nat>, extra: set<nat>, mem: seq<Byte>, ino: Inode)
    requires Inv(st) && Writing(st, st1, i, p, extra, mem)
    requires ino.typ == GetInode(st, i).typ && BlockCount(ino.size) >= MAXFILE
    requires if Blocks(st, i) > NDIRECT then ino.blocks[NDIRECT] == At(st, i, MAXFILE) else ino.blocks[NDIRECT] in extra
    ensures TableNotStored(st, PutInode(st1, i, ino), i, ino.size)
  {
    var b := ino.blocks[NDIRECT];
    GetAfterPut(st1, i, ino, i);
    IBlockBounds(i);
    if Blocks(st, i) > NDIRECT {
      assert Slot(st, i, MAXFILE);
      forall j | 0 <= j < |p| ensures p[j] != b {
        if j < BlockCount(GetInode(st, i).size) {
          assert Slot(st, i, j);
        }
      }
    }
    DataAfterPut(st1, i, ino, b);
    ZeroBlockAfterPut(st1, i, ino);
    assert 0 !in p;
  }

  lemma ZeroBlockAfterPut(st: Store, i: nat, ino: Inode)
    requires i < INODE_NUM
    ensures PutInode(st, i, ino).disk[0] == st.disk[0]
  {
    assert IBlock(i) != 0;
  }

  /** So each pointer beyond the direct ones is whatever stood in that block before the write. */
  lemma PointersOfBefore(st: Store, st': Store, i: nat, size: nat, k: nat)
    requires TableNotStored(st, st', i, size) && NDIRECT <= k < MAXFILE
    ensures At(st', i, k) == ReadTable(st.disk[GetInode(st', i).blocks[NDIRECT]])[k - NDIRECT]
  {
  }

  /** Block 0 and every free block hold zeros, as on a new disk. */
  ghost predicate Fresh(st: Store) {
    st.disk[0] == ZeroBlock() && forall b: nat :: IsData(b) && b !in st.marked ==> st.disk[b] == ZeroBlock()
  }

  lemma PutKeepsFresh(st: Store, i: nat, ino: Inode)
    requires i < INODE_NUM
    ensures Fresh(st) ==> Fresh(PutInode(st, i, ino))
  {
    ZeroBlockAfterPut(st, i, ino);
    forall b: nat | IsData(b) ensures PutInode(st, i, ino).disk[b] == st.disk[b] {
      DataAfterPut(st, i, ino, b);
    }
  }

  /** On such a disk a file of MAXFILE blocks or more is not read back: whatever its size, the first byte
      beyond the direct blocks comes out as zero. */
  lemma TooBigIsNotReadBack(st: Store, st': Store, i: nat, buf: seq<Byte>)
    requires Fresh(st) && Blocks(st, i) <= NDIRECT
    requires BlockCount(|buf|) >= MAXFILE && TableNotStored(st, st', i, |buf|)
    ensures NDIRECT * BLOCK_SIZE < |buf| && FileAt(st', i).data[NDIRECT * BLOCK_SIZE] == 0
    ensures buf[NDIRECT * BLOCK_SIZE] != 0 ==> FileAt(st', i).data != buf
  {
    PointersOfBefore(st, st', i, |buf|, NDIRECT);
    assert WordAt(ZeroBlock(), 0) == 0;
    assert At(st', i, NDIRECT) == 0;
    assert NDIRECT * BLOCK_SIZE / BLOCK_SIZE == NDIRECT;
  }
}
