/** The in-memory disk and the block manager on top of it. */
module BlockLayer {
  import opened DiskFormat
  import opened BitmapModule
  import FS = FileStore

  class RamDisk {
    const blocks: array<Block>

    ghost predicate Valid()
      reads this
    {
      blocks.Length == BLOCK_NUM
    }

    constructor ()
      ensures Valid() && fresh(blocks)
      ensures blocks[..] == FS.BlankDisk()
    {
      blocks := new Block[BLOCK_NUM](_ => ZeroBlock());
    }

    /** An id outside the disk leaves the caller's buffer as it was. */
    method ReadBlock(id: nat, buf: Block) returns (r: Block)
      requires Valid()
      ensures r == if id < BLOCK_NUM then blocks[id] else buf
    {
      if id >= BLOCK_NUM {
        return buf;
      }
      return blocks[id];
    }

    method WriteBlock(id: nat, buf: Block)
      requires Valid()
      modifies blocks
      ensures blocks[..] == if id < BLOCK_NUM then old(blocks[..])[id := buf] else old(blocks[..])
    {
      if id >= BLOCK_NUM {
        return;
      }
      blocks[id] := buf;
    }
  }

  class BlockManager {
    const d: RamDisk
    const bitmap: Bitmap

    ghost predicate Valid()
      reads this, d, bitmap
    {
      d.Valid() && bitmap.Valid() && bitmap.numBits == BLOCK_NUM
    }

    ghost function Repr(): set<object>
      reads this, d, bitmap
    {
      {d.blocks, bitmap.bytes}
    }

    ghost function State(): FS.Store
      requires Valid()
      reads this, d, bitmap, Repr()
    {
      FS.Store(d.blocks[..], bitmap.Marked())
    }

    /** Reserves the boot and super blocks, the bitmap's own blocks and the inode table. */
    constructor ()
      ensures Valid() && fresh(Repr())
      ensures State().disk == FS.BlankDisk()
      ensures forall b: nat :: b in State().marked <==> b < FIRST_DATA
    {
      d := new RamDisk();
      bitmap := new Bitmap(BLOCK_NUM);
      new;
      hide FS.BlankDisk;
      bitmap.Mark(0);
      bitmap.Mark(1);
      var n := (BLOCK_NUM + BPB - 1) / BPB;
      MarkNext(2, n);
      MarkNext(2 + n, (INODE_NUM + IPB - 1) / IPB + 1);
    }

    /** Marks `n` blocks behind the first `from`, which are marked already. */
    method MarkNext(from: nat, n: nat)
      requires Valid() && from + n <= BLOCK_NUM
      requires forall b: nat :: b in bitmap.Marked() <==> b < from
      modifies bitmap.bytes
      ensures forall b: nat :: b in bitmap.Marked() <==> b < from + n
    {
      var i := 0;
      while i < n
        invariant 0 <= i <= n
        invariant forall b: nat :: b in bitmap.Marked() <==> b < from + i
      {
        bitmap.Mark(from + i);
        i := i + 1;
      }
    }

    /** Takes the lowest free block; on a full disk the answer is block 0, which is reserved. */
    method AllocBlock() returns (b: nat)
      requires Valid()
      modifies Repr()
      ensures Valid() && b < BLOCK_NUM
      ensures State() == old(State()).(marked := old(State()).marked + {b})
      ensures FS.Free(old(State())) != {} ==> b in FS.Free(old(State()))
      ensures forall c :: c in FS.Free(old(State())) ==> b <= c
      ensures FS.Free(old(State())) == {} ==> b == 0
    {
      b := bitmap.Find();
      bitmap.Mark(b);
    }

    method FreeBlock(id: nat)
      requires Valid()
      modifies Repr()
      ensures Valid()
      ensures State() == old(State()).(marked := old(State()).marked - {id})
    {
      bitmap.Clear(id);
    }

    method ReadBlock(id: nat, buf: Block) returns (r: Block)
      requires Valid()
      ensures r == if id < BLOCK_NUM then State().disk[id] else buf
    {
      r := d.ReadBlock(id, buf);
    }

    method WriteBlock(id: nat, buf: Block)
      requires Valid()
      modifies Repr()
      ensures Valid()
      ensures State() == if id < BLOCK_NUM then old(State()).(disk := old(State()).disk[id := buf]) else old(State())
    {
      d.WriteBlock(id, buf);
    }
  }
}
