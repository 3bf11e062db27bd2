/** The extent service as its users see it: a plain map from inode number to type and bytes. */
module ExtentSpec {
  import opened Wire
  import opened DiskFormat

  datatype File = File(typ: Half, data: seq<Byte>)
  type Table = map<nat, File>
  datatype Attr = Attr(typ: Word, atime: Word, mtime: Word, ctime: Word, size: nat)

  datatype Op = Create(typ: Word) | Put(id: nat, buf: seq<Byte>) | Get(id: nat) | GetAttr(id: nat) | Remove(id: nat)
  datatype Answer = Id(inum: nat) | Done | Bytes(data: seq<Byte>) | Attrs(attr: Attr)

  /** Only the low 31 bits of an extent id count. */
  function Key(id: nat): nat {
    id % 0x8000_0000
  }

  /** The lowest unused inode number from `i` on, or 0 when there is none. */
  function LowestUnused(m: Table, i: nat): (r: nat)
    requires 0 < i <= INODE_NUM
    ensures r < INODE_NUM
    ensures r == 0 ==> forall j :: i <= j < INODE_NUM ==> j in m
    ensures r != 0 ==> i <= r && r !in m && forall j :: i <= j < r ==> j in m
    decreases INODE_NUM - i
  {
    if i == INODE_NUM then 0 else if i !in m then i else LowestUnused(m, i + 1)
  }

  /** The type is stored in 16 bits, so a type that is a multiple of 2^16 creates nothing. */
  function Created(m: Table, inum: nat, typ: nat): Table {
    if inum == 0 || typ % 0x1_0000 == 0 then m else m[inum := File(typ % 0x1_0000, [])]
  }

  /** The stored 16-bit type is a signed field. */
  function SignExtend(typ: Half): Word {
    if typ < 0x8000 then typ else typ + 0xffff_0000
  }

  function AttrOf(m: Table, inum: nat): Attr {
    if inum in m then Attr(SignExtend(m[inum].typ), 0, 0, 0, |m[inum].data|) else Attr(0, 0, 0, 0, 0)
  }

  function Step(m: Table, op: Op): (Answer, Table) {
    match op
    case Create(typ) => (Id(LowestUnused(m, 1)), Created(m, LowestUnused(m, 1), typ))
    case Put(id, buf) => (Done, if Key(id) in m then m[Key(id) := m[Key(id)].(data := buf)] else m)
    case Get(id) => (Bytes(if Key(id) in m then m[Key(id)].data else []), m)
    case GetAttr(id) => (Attrs(AttrOf(m, Key(id))), m)
    case Remove(id) => (Done, m - {Key(id)})
  }

  /** The answers to a sequence of operations, and the table afterwards. */
  function Steps(m: Table, ops: seq<Op>): (seq<Answer>, Table) {
    if ops == [] then ([], m)
    else
      var (answers, m1) := Steps(m, ops[..|ops| - 1]);
      var (answer, m2) := Step(m1, ops[|ops| - 1]);
      (answers + [answer], m2)
  }

  // ---------------------------------------------------------------- space

  /** How many blocks a write takes when the file goes from `orig` to `cur` blocks; blocks that a
      smaller file no longer needs are not given back. */
  function Needed(orig: nat, cur: nat): nat {
    (if cur > orig then cur - orig else 0) + (if cur > NDIRECT && orig <= NDIRECT then 1 else 0)
  }

  /** The data blocks of a file and its indirect block. */
  function Total(blocks: nat): nat {
    blocks + (if blocks > NDIRECT then 1 else 0)
  }

  /** The number of free blocks after an operation, from the table and the number before it. */
  function FreeAfter(m: Table, free: int, op: Op): int {
    match op
    case Put(id, buf) =>
      if Key(id) in m then free - Needed(BlockCount(|m[Key(id)].data|), BlockCount(|buf|)) else free
    case Remove(id) => if Key(id) in m then free + Total(BlockCount(|m[Key(id)].data|)) else free
    case _ => free
  }

  function FreeAfterAll(m: Table, free: int, ops: seq<Op>): int {
    if ops == [] then free
    else
      var before := ops[..|ops| - 1];
      FreeAfter(Steps(m, before).1, FreeAfterAll(m, free, before), ops[|ops| - 1])
  }

  /** An operation that the store supports: a file stays below MAXFILE blocks, and there is room. */
  predicate Fits(m: Table, free: int, op: Op) {
    op.Put? && Key(op.id) in m ==> BlockCount(|op.buf|) < MAXFILE && FreeAfter(m, free, op) >= 0
  }

  predicate FitsAll(m: Table, free: int, ops: seq<Op>) {
    ops != [] ==>
      var before := ops[..|ops| - 1];
      && FitsAll(m, free, before)
      && Fits(Steps(m, before).1, FreeAfterAll(m, free, before), ops[|ops| - 1])
  }

  predicate Shrinks(m: Table, op: Op) {
    op.Put? && Key(op.id) in m && BlockCount(|op.buf|) < BlockCount(|m[Key(op.id)].data|)
  }

  predicate NeverShrinks(m: Table, ops: seq<Op>) {
    ops != [] ==>
      var before := ops[..|ops| - 1];
      NeverShrinks(m, before) && !Shrinks(Steps(m, before).1, ops[|ops| - 1])
  }

  lemma {:induction false} FitsEveryPrefix(m: Table, free: int, ops: seq<Op>, n: nat)
    requires FitsAll(m, free, ops) && n <= |ops|
    ensures FitsAll(m, free, ops[..n])
    ensures n < |ops| ==> Fits(Steps(m, ops[..n]).1, FreeAfterAll(m, free, ops[..n]), ops[n])
  {
    if n == |ops| {
      assert ops[..n] == ops;
    } else if n < |ops| - 1 {
      var before := ops[..|ops| - 1];
      assert before[..n] == ops[..n];
      FitsEveryPrefix(m, free, before, n);
    }
  }
}
