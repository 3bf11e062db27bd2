/** The extent server: its five operations refine the plain map of `ExtentSpec`. */
module ExtentServerModule {
  import opened Wire
  import opened DiskFormat
  import opened ExtentSpec
  import opened InodeLayer
  import FS = FileStore

  /** The free blocks of a disk that holds only the root directory. */
  const FREE_AT_START: nat := BLOCK_NUM - FIRST_DATA

  /** What the specification knows of a file's size is its real block count. */
  lemma SameBlocks(st: FS.Store, i: nat)
    ensures i in FS.Files(st) <==> FS.Live(st, i)
    ensures FS.Blocks(st, i) == if i in FS.Files(st) then BlockCount(|FS.Files(st)[i].data|) else 0
  {
    FS.InFiles(st, i);
  }

  /** A put of one byte and then of none: the root directory is empty again, and a block is gone. */
  lemma ShrinkingLosesABlock() returns (ops: seq<Op>)
    ensures var m := map[1 := File(1, [])];
      && FitsAll(m, FREE_AT_START, ops) && !NeverShrinks(m, ops)
      && Steps(m, ops).1 == m && FreeAfterAll(m, FREE_AT_START, ops) == FREE_AT_START - 1
  {
    var m, m1 := map[1 := File(1, [])], map[1 := File(1, [7])];
    var grow, shrink := Op.Put(1, [7]), Op.Put(1, []);
    ops := [grow, shrink];
    var one := [grow];
    assert ops[..1] == one && one[..0] == [];
    assert Steps(m, []) == ([], m) && FreeAfterAll(m, FREE_AT_START, []) == FREE_AT_START;
    assert Key(1) == 1 && BlockCount(0) == 0 && BlockCount(1) == 1;
    assert Step(m, grow).1 == m1 && Step(m1, shrink).1 == m;
    assert Steps(m, one).1 == m1;
    assert FreeAfterAll(m, FREE_AT_START, one) == FREE_AT_START - 1;
  }

  class ExtentServer {
    const im: InodeManager

    ghost predicate Valid()
      reads this, im, im.bm, im.bm.d, im.bm.bitmap, im.bm.Repr()
    {
      im.Valid()
    }

    ghost function State(): FS.Store
      requires Valid()
      reads this, im, im.bm, im.bm.d, im.bm.bitmap, im.bm.Repr()
    {
      im.State()
    }

    ghost function Files(): Table
      requires Valid()
      reads this, im, im.bm, im.bm.d, im.bm.bitmap, im.bm.Repr()
    {
      FS.Files(State())
    }

    ghost function FreeCount(): nat
      requires Valid()
      reads this, im, im.bm, im.bm.d, im.bm.bitmap, im.bm.Repr()
    {
      |FS.Free(State())|
    }

    constructor ()
      ensures Valid() && fresh(im.bm.Repr())
      ensures Files() == map[1 := File(1, [])]
      ensures FreeCount() == FREE_AT_START
      ensures FS.Exact(State()) && FS.Fresh(State())
    {
      im := new InodeManager();
    }

    method Create(typ: Word) returns (id: nat)
      requires Valid()
      modifies im.bm.Repr()
      ensures Valid()
      ensures (Id(id), Files()) == Step(old(Files()), Op.Create(typ))
      ensures FreeCount() == old(FreeCount())
      ensures FS.Exact(State()) <==> old(FS.Exact(State()))
    {
      id := im.AllocInode(typ);
    }

    /** The server stays valid exactly when the put fits. */
    method Put(id: nat, buf: seq<Byte>, slack: seq<Byte>)
      requires Valid() && |slack| >= BLOCK_SIZE && |buf| < INT_LIMIT
      modifies im.bm.Repr()
      ensures im.bm.Valid()
      ensures Valid() <==> Fits(old(Files()), old(FreeCount()), Op.Put(id, buf))
      ensures Valid() ==> (Done, Files()) == Step(old(Files()), Op.Put(id, buf))
      ensures Valid() ==> FreeCount() == FreeAfter(old(Files()), old(FreeCount()), Op.Put(id, buf))
      ensures Valid() ==> (FS.Exact(State()) <==> old(FS.Exact(State())) && !Shrinks(old(Files()), Op.Put(id, buf)))
      ensures Key(id) in old(Files()) && BlockCount(|buf|) >= MAXFILE
              && Needed(BlockCount(|old(Files())[Key(id)].data|), MAXFILE) <= old(FreeCount()) ==>
                FS.TableNotStored(old(State()), im.State(), Key(id), |buf|)
    {
      hide FS.Inv, FS.Files, FS.Exact, FS.Live, FS.Free, FS.Blocks, FS.TableNotStored;
      SameBlocks(State(), Key(id));
      im.WriteFile(Key(id), buf, slack);
    }

    method Get(id: nat) returns (buf: seq<Byte>)
      requires Valid()
      ensures (Bytes(buf), Files()) == Step(Files(), Op.Get(id))
    {
      buf := im.ReadFile(Key(id));
    }

    method GetAttr(id: nat) returns (a: Attr)
      requires Valid()
      ensures (Attrs(a), Files()) == Step(Files(), Op.GetAttr(id))
    {
      a := im.GetAttr(Key(id));
    }

    method Remove(id: nat)
      requires Valid()
      modifies im.bm.Repr()
      ensures Valid()
      ensures (Done, Files()) == Step(old(Files()), Op.Remove(id))
      ensures FreeCount() == FreeAfter(old(Files()), old(FreeCount()), Op.Remove(id))
      ensures FS.Exact(State()) <==> old(FS.Exact(State()))
    {
      hide FS.Inv, FS.Files, FS.Exact, FS.Live, FS.Free, FS.Blocks;
      SameBlocks(State(), Key(id));
      im.RemoveFile(Key(id));
    }

    /** One operation of any kind; only a put may fail to fit, and then the server is not valid any more. */
    method Do(op: Op, slack: seq<Byte>) returns (answer: Answer)
      requires Valid() && |slack| >= BLOCK_SIZE && (op.Put? ==> |op.buf| < INT_LIMIT)
      modifies im.bm.Repr()
      ensures im.bm.Valid()
      ensures Valid() <==> Fits(old(Files()), old(FreeCount()), op)
      ensures Valid() ==> (answer, Files()) == Step(old(Files()), op)
      ensures Valid() ==> FreeCount() == FreeAfter(old(Files()), old(FreeCount()), op)
      ensures Valid() ==> (FS.Exact(State()) <==> old(FS.Exact(State())) && !Shrinks(old(Files()), op))
    {
      hide FS.Inv, FS.Files, FS.Exact, FS.Free;
      match op
      case Create(typ) =>
        var id := Create(typ);
        answer := Id(id);
      case Put(id, buf) =>
        Put(id, buf, slack);
        answer := Done;
      case Get(id) =>
        var data := Get(id);
        answer := Bytes(data);
      case GetAttr(id) =>
        var a := GetAttr(id);
        answer := Attrs(a);
      case Remove(id) =>
        Remove(id);
        answer := Done;
    }

    /** Every sequence of operations gives the answers of the plain map as long as they fit, and the
        server is valid afterwards exactly if they all do; the free blocks are accounted for exactly,
        and no block is lost exactly when no put ever shrinks a file. The sequence ends with the first
        operation that does not fit. */
    method Serve(ops: seq<Op>, slack: seq<Byte>) returns (answers: seq<Answer>)
      requires Valid() && |slack| >= BLOCK_SIZE
      requires forall i :: 0 <= i < |ops| && ops[i].Put? ==> |ops[i].buf| < INT_LIMIT
      requires ops != [] ==> FitsAll(Files(), FreeCount(), ops[..|ops| - 1])
      modifies im.bm.Repr()
      ensures im.bm.Valid()
      ensures Valid() <==> FitsAll(old(Files()), old(FreeCount()), ops)
      ensures Valid() ==> (answers, Files()) == Steps(old(Files()), ops)
      ensures Valid() ==> FreeCount() == FreeAfterAll(old(Files()), old(FreeCount()), ops)
      ensures Valid() ==> (FS.Exact(State()) <==> old(FS.Exact(State())) && NeverShrinks(old(Files()), ops))
    {
      hide FS.Inv, FS.Files, FS.Exact, FS.Free, Step, Fits, FreeAfter, Shrinks;
      ghost var m, free, exact := Files(), FreeCount(), FS.Exact(State());
      answers := [];
      var i := 0;
      while i < |ops|
        invariant 0 <= i <= |ops| && im.bm.Valid()
        invariant Valid() <==> FitsAll(m, free, ops[..i])
        invariant i < |ops| ==> Valid()
        invariant Valid() ==> (answers, Files()) == Steps(m, ops[..i])
        invariant Valid() ==> FreeCount() == FreeAfterAll(m, free, ops[..i])
        invariant Valid() ==> (FS.Exact(State()) <==> exact && NeverShrinks(m, ops[..i]))
      {
        assert ops[..i + 1][..i] == ops[..i];
        if i + 1 < |ops| {
          var most := ops[..|ops| - 1];
          FitsEveryPrefix(m, free, most, i + 1);
          assert most[..i + 1] == ops[..i + 1];
        }
        var answer := Do(ops[i], slack);
        answers := answers + [answer];
        i := i + 1;
      }
      assert ops[..i] == ops;
    }
  }
}
