/** What the plain map of `ExtentSpec` means to its users: laws that relate the answers of its
    operations to each other, over every table and every history. */
module ExtentLaws {
  import opened Wire
  import opened DiskFormat
  import opened ExtentSpec

  /** The answer to an operation after a history. */
  function AnswerTo(m: Table, history: seq<Op>, op: Op): Answer {
    Step(Steps(m, history).1, op).0
  }

  /** The operation replaces or removes the contents of file `k`. */
  predicate Changes(op: Op, k: nat) {
    (op.Put? || op.Remove?) && Key(op.id) == k
  }

  predicate NoneChanges(ops: seq<Op>, k: nat) {
    forall i :: 0 <= i < |ops| ==> !Changes(ops[i], k)
  }

  predicate NoneRemoves(ops: seq<Op>, k: nat) {
    forall i :: 0 <= i < |ops| && ops[i].Remove? ==> Key(ops[i].id) != k
  }

  /** After `history`, none of `ops` is a create that is answered with `k`. */
  predicate NoneCreates(m: Table, history: seq<Op>, ops: seq<Op>, k: nat) {
    forall i :: 0 <= i < |ops| && ops[i].Create? ==> AnswerTo(m, history + ops[..i], ops[i]) != Id(k)
  }

  // ---------------------------------------------------------------- histories

  lemma OneMore(m: Table, history: seq<Op>, op: Op)
    ensures Steps(m, history + [op]).1 == Step(Steps(m, history).1, op).1
  {
    assert (history + [op])[..|history|] == history;
  }

  lemma Extended(m: Table, history: seq<Op>, ops: seq<Op>)
    requires ops != []
    ensures Steps(m, history + ops).1 == Step(Steps(m, history + ops[..|ops| - 1]).1, ops[|ops| - 1]).1
  {
    var n := |ops| - 1;
    assert history + ops == (history + ops[..n]) + [ops[n]];
    OneMore(m, history + ops[..n], ops[n]);
  }

  /** A file that is there stays as it is until it is put or removed. */
  lemma {:induction false} FileStays(m: Table, history: seq<Op>, ops: seq<Op>, k: nat)
    requires k in Steps(m, history).1 && NoneChanges(ops, k)
    ensures k in Steps(m, history + ops).1 && Steps(m, history + ops).1[k] == Steps(m, history).1[k]
    decreases |ops|
  {
    hide Steps, LowestUnused;
    if ops == [] {
      assert history + ops == history;
    } else {
      FileStays(m, history, ops[..|ops| - 1], k);
      Extended(m, history, ops);
    }
  }

  /** A file that is there keeps its type until it is removed. */
  lemma {:induction false} TypeStays(m: Table, history: seq<Op>, ops: seq<Op>, k: nat)
    requires k in Steps(m, history).1 && NoneRemoves(ops, k)
    ensures k in Steps(m, history + ops).1 && Steps(m, history + ops).1[k].typ == Steps(m, history).1[k].typ
    decreases |ops|
  {
    hide Steps, LowestUnused;
    if ops == [] {
      assert history + ops == history;
    } else {
      TypeStays(m, history, ops[..|ops| - 1], k);
      Extended(m, history, ops);
    }
  }

  /** A file that is not there stays away until it is created. */
  lemma {:induction false} AbsenceStays(m: Table, history: seq<Op>, ops: seq<Op>, k: nat)
    requires k !in Steps(m, history).1 && NoneCreates(m, history, ops, k)
    ensures k !in Steps(m, history + ops).1
    decreases |ops|
  {
    hide Steps, LowestUnused;
    if ops == [] {
      assert history + ops == history;
    } else {
      var n := |ops| - 1;
      assert forall i :: 0 <= i < n ==> ops[..n][..i] == ops[..i];
      AbsenceStays(m, history, ops[..n], k);
      Extended(m, history, ops);
    }
  }

  // ---------------------------------------------------------------- laws

  /** What was put is what is got, whatever happens to other files in between. */
  lemma PutThenGet(m: Table, history: seq<Op>, id: nat, buf: seq<Byte>, ops: seq<Op>)
    requires Key(id) in Steps(m, history).1 && NoneChanges(ops, Key(id))
    ensures AnswerTo(m, history + [Put(id, buf)] + ops, Get(id)) == Bytes(buf)
  {
    hide Steps, LowestUnused;
    OneMore(m, history, Put(id, buf));
    FileStays(m, history + [Put(id, buf)], ops, Key(id));
  }

  /** A put to a file that is not there is answered like any other and changes nothing. */
  lemma PutOfMissing(m: Table, history: seq<Op>, id: nat, buf: seq<Byte>)
    requires Key(id) !in Steps(m, history).1
    ensures AnswerTo(m, history, Put(id, buf)) == Done
    ensures Steps(m, history + [Put(id, buf)]).1 == Steps(m, history).1
  {
    hide Steps, LowestUnused;
    OneMore(m, history, Put(id, buf));
  }

  /** A removed file reads as empty and has no attributes until it is created again. */
  lemma RemoveThenGet(m: Table, history: seq<Op>, id: nat, ops: seq<Op>)
    requires NoneCreates(m, history + [Remove(id)], ops, Key(id))
    ensures AnswerTo(m, history + [Remove(id)] + ops, Get(id)) == Bytes([])
    ensures AnswerTo(m, history + [Remove(id)] + ops, GetAttr(id)) == Attrs(Attr(0, 0, 0, 0, 0))
  {
    hide Steps, LowestUnused;
    OneMore(m, history, Remove(id));
    AbsenceStays(m, history + [Remove(id)], ops, Key(id));
  }

  /** A create that is answered with a number made that file: it was not there, it is empty until it is
      put or removed, and until it is removed it has the type that was asked for, as a signed 16-bit
      number. */
  lemma CreateThenGet(m: Table, history: seq<Op>, typ: Word, n: nat, ops: seq<Op>)
    requires AnswerTo(m, history, Create(typ)) == Id(n) && n != 0 && typ % 0x1_0000 != 0
    ensures n !in Steps(m, history).1 && n in Steps(m, history + [Create(typ)]).1 && Key(n) == n
    ensures NoneChanges(ops, n) ==> AnswerTo(m, history + [Create(typ)] + ops, Get(n)) == Bytes([])
    ensures NoneRemoves(ops, n) ==>
      var a := AnswerTo(m, history + [Create(typ)] + ops, GetAttr(n));
      a.Attrs? && a.attr.typ == (if typ % 0x1_0000 < 0x8000 then typ % 0x1_0000 else typ % 0x1_0000 + 0xffff_0000)
    ensures NoneChanges(ops, n) ==>
      var a := AnswerTo(m, history + [Create(typ)] + ops, GetAttr(n)); a.Attrs? && a.attr.size == 0
  {
    hide Steps, LowestUnused;
    OneMore(m, history, Create(typ));
    var after := history + [Create(typ)];
    if NoneChanges(ops, n) {
      FileStays(m, after, ops, n);
    }
    if NoneRemoves(ops, n) {
      TypeStays(m, after, ops, n);
    }
  }

  /** The number that a create answers is 0 exactly when all are in use, and else the lowest free one. */
  lemma CreateAnswers(m: Table, history: seq<Op>, typ: Word)
    ensures var a, t := AnswerTo(m, history, Create(typ)), Steps(m, history).1;
      && a.Id?
      && (a.inum == 0 <==> AllUsed(t))
      && (a.inum != 0 ==> a.inum < INODE_NUM && a.inum !in t)
      && forall j :: 0 < j < a.inum ==> j in t
  {
    hide Steps, LowestUnused;
    var t := Steps(m, history).1;
    LowestOf(t);
    assert AnswerTo(m, history, Create(typ)) == Id(LowestUnused(t, 1));
    assert LowestUnused(t, 1) == 0 <==> AllUsed(t);
  }

  predicate AllUsed(m: Table) {
    forall j :: 0 < j < INODE_NUM ==> j in m
  }

  lemma LowestOf(m: Table)
    ensures LowestUnused(m, 1) == 0 <==> AllUsed(m)
    ensures LowestUnused(m, 1) != 0 ==> LowestUnused(m, 1) < INODE_NUM && LowestUnused(m, 1) !in m
    ensures forall j :: 0 < j < LowestUnused(m, 1) ==> j in m
  {
    var n := LowestUnused(m, 1);
    if n == 0 {
      forall j: nat | 0 < j < INODE_NUM ensures j in m {
        assert 1 <= j < INODE_NUM;
      }
    }
  }

  /** The size that is reported is the number of bytes that are got; a file that is not there has
      neither, and all its attributes are zero. */
  lemma SizeIsLength(m: Table, history: seq<Op>, id: nat)
    ensures var g, a := AnswerTo(m, history, Get(id)), AnswerTo(m, history, GetAttr(id));
      && g.Bytes? && a.Attrs? && a.attr.size == |g.data|
      && a.attr.atime == 0 && a.attr.mtime == 0 && a.attr.ctime == 0
      && (Key(id) !in Steps(m, history).1 ==> g.data == [] && a.attr == Attr(0, 0, 0, 0, 0))
  {
    hide Steps, LowestUnused;
  }

  /** Only the low 31 bits of an id count, for the answer and for everything afterwards. */
  lemma LowBitsCount(m: Table, history: seq<Op>, id: nat, id': nat, buf: seq<Byte>)
    requires id % 0x8000_0000 == id' % 0x8000_0000
    ensures AnswerTo(m, history, Get(id)) == AnswerTo(m, history, Get(id'))
    ensures AnswerTo(m, history, GetAttr(id)) == AnswerTo(m, history, GetAttr(id'))
    ensures Steps(m, history + [Put(id, buf)]).1 == Steps(m, history + [Put(id', buf)]).1
    ensures Steps(m, history + [Remove(id)]).1 == Steps(m, history + [Remove(id')]).1
  {
    hide Steps, LowestUnused;
    OneMore(m, history, Put(id, buf));
    OneMore(m, history, Put(id', buf));
    OneMore(m, history, Remove(id));
    OneMore(m, history, Remove(id'));
  }

  /** Ids that differ in their low 31 bits are different files. */
  lemma OtherIdsAreOtherFiles(m: Table, history: seq<Op>, id: nat, id': nat, buf: seq<Byte>)
    requires id % 0x8000_0000 != id' % 0x8000_0000
    ensures AnswerTo(m, history + [Put(id', buf)], Get(id)) == AnswerTo(m, history, Get(id))
    ensures AnswerTo(m, history + [Put(id', buf)], GetAttr(id)) == AnswerTo(m, history, GetAttr(id))
    ensures AnswerTo(m, history + [Remove(id')], Get(id)) == AnswerTo(m, history, Get(id))
    ensures AnswerTo(m, history + [Remove(id')], GetAttr(id)) == AnswerTo(m, history, GetAttr(id))
  {
    hide Steps, LowestUnused;
    OneMore(m, history, Put(id', buf));
    OneMore(m, history, Remove(id'));
  }

  /** Reading changes nothing. */
  lemma ReadingChangesNothing(m: Table, history: seq<Op>, id: nat)
    ensures Steps(m, history + [Get(id)]).1 == Steps(m, history).1 == Steps(m, history + [GetAttr(id)]).1
  {
    hide Steps, LowestUnused;
    OneMore(m, history, Get(id));
    OneMore(m, history, GetAttr(id));
  }

  /** A number that was given back is given out again: after a remove, everything below in use, the next
      create answers with it. */
  lemma RemovedIsReused(m: Table, history: seq<Op>, id: nat, typ: Word)
    requires 0 < Key(id) < INODE_NUM && forall j :: 0 < j < Key(id) ==> j in Steps(m, history).1
    ensures AnswerTo(m, history + [Remove(id)], Create(typ)) == Id(Key(id))
  {
    OneMore(m, history, Remove(id));
    hide Steps, LowestUnused;
    LowestIs(Steps(m, history).1 - {Key(id)}, Key(id));
  }

  lemma LowestIs(m: Table, k: nat)
    requires 0 < k < INODE_NUM && k !in m && forall j :: 0 < j < k ==> j in m
    ensures LowestUnused(m, 1) == k
  {
    var n := LowestUnused(m, 1);
    assert n == 0 ==> k in m;
    assert n != 0 && k < n ==> k in m;
    assert n != 0 && n < k ==> n in m;
  }
}
