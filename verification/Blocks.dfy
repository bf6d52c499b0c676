// The block device of bio.c and the block allocator on it.  A block is one of the four records
// the file system writes, or all zero; Layout.dfy relates them to their 1024 bytes.

module Blocks {
  import opened CString

  const BLOCK_SIZE := 1024
  const DATA_SIZE := 999
  const MAX_BLOCK := 2048
  const MAX_FILENAME_SIZE := 256

  type u64 = x: int | 0 <= x < 0x1_0000_0000_0000_0000

  // A name that fits its 256-byte field together with its NUL.
  type Name = s: text | |s| < MAX_FILENAME_SIZE

  type Chunk = s: seq<byte> | |s| == DATA_SIZE witness seq(DATA_SIZE, _ => 0)

  function ZeroChunk(): Chunk {
    seq(DATA_SIZE, _ => 0)
  }

  datatype Block =
    | Free
    | Super(root: u64)
    | Inode(isDir: bool, name: Name, parent: u64, start: u64, size: u64, addr: u64)
    | Cell(last: bool, addr: u64, inode: u64, next: u64)
    | Data(bytes: Chunk, addr: u64, prev: u64, next: u64)

  // The first byte of a block, which doubles as the allocation map.
  function Flag(b: Block): nat {
    match b
    case Free => 0
    case Cell(last, _, _, _) => if last then 2 else 1
    case _ => 1
  }

  // What dalloc leaves in a block it hands out.
  const Claimed: Block := Data(ZeroChunk(), 0, 0, 0)

  type Image = d: seq<Block> | |d| == MAX_BLOCK witness seq(MAX_BLOCK, _ => Free)

  // ---------- Free blocks ----------

  function FreeSet(d: Image): set<nat> {
    set i: nat | 1 <= i < MAX_BLOCK && d[i].Free?
  }

  function FreeCount(d: Image): nat {
    |FreeSet(d)|
  }

  // The block dalloc picks: the lowest free one from 1 on, or MAX_BLOCK.
  ghost predicate IsLowestFree(d: Image, a: nat) {
    1 <= a <= MAX_BLOCK
    && (a < MAX_BLOCK ==> d[a].Free?)
    && (forall i :: 1 <= i < a ==> !d[i].Free?)
  }

  lemma NoneFree(d: Image)
    requires IsLowestFree(d, MAX_BLOCK)
    ensures FreeCount(d) == 0
  {
  }

  lemma SomeFree(d: Image, a: nat)
    requires 1 <= a < MAX_BLOCK && d[a].Free?
    ensures FreeCount(d) > 0
  {
    assert a in FreeSet(d);
  }

  lemma FreeAfterClaim(d: Image, a: nat, b: Block)
    requires 1 <= a < MAX_BLOCK && d[a].Free? && !b.Free?
    ensures FreeSet(d[a := b]) == FreeSet(d) - {a}
    ensures FreeCount(d[a := b]) == FreeCount(d) - 1
  {
  }

  lemma FreeAfterOverwrite(d: Image, a: nat, b: Block)
    requires a < MAX_BLOCK && !d[a].Free? && !b.Free?
    ensures FreeSet(d[a := b]) == FreeSet(d)
  {
  }

  lemma FreeAfterRelease(d: Image, a: nat)
    requires 1 <= a < MAX_BLOCK && !d[a].Free?
    ensures FreeSet(d[a := Free]) == FreeSet(d) + {a}
    ensures FreeCount(d[a := Free]) == FreeCount(d) + 1
  {
  }

  // Of the blocks in use only those of own may have changed.
  ghost predicate Untouched(d: Image, d': Image, own: seq<nat>) {
    forall y :: 0 <= y < MAX_BLOCK && y !in own && !d[y].Free? ==> d'[y] == d[y]
  }

  // ---------- The device ----------

  // The block that a 64-bit block number names: it is passed on in 32 bits, and so is twice of it.
  function Place(no: nat): (p: nat)
    ensures no < 0x8000_0000 ==> p == no
  {
    no % 0x8000_0000
  }

  class Device {
    const blocks: array<Block>

    ghost predicate Valid() {
      blocks.Length == MAX_BLOCK
    }

    ghost function View(): Image
      requires Valid()
      reads blocks
    {
      blocks[..]
    }

    // A device whose blocks are all zero: format().
    constructor ()
      ensures Valid() && fresh(blocks)
      ensures forall i :: 0 <= i < MAX_BLOCK ==> View()[i] == Free
    {
      blocks := new Block[MAX_BLOCK](_ => Free);
    }

    // What the buffer holds after a read: a read past the end of the disk fails and leaves it alone.
    method Bread(no: nat, buffer: Block) returns (b: Block)
      requires Valid()
      ensures b == if Place(no) < MAX_BLOCK then View()[Place(no)] else buffer
    {
      b := if Place(no) < MAX_BLOCK then blocks[Place(no)] else buffer;
    }

    // A write past the end of the disk fails and changes nothing; any other write succeeds.
    method Bwrite(no: nat, b: Block) returns (failed: bool)
      requires Valid()
      modifies blocks
      ensures failed <==> Place(no) >= MAX_BLOCK
      ensures View() == if failed then old(View()) else old(View())[Place(no) := b]
    {
      failed := Place(no) >= MAX_BLOCK;
      if !failed { blocks[Place(no)] := b; }
    }

    method Dalloc() returns (a: nat)
      requires Valid()
      modifies blocks
      ensures IsLowestFree(old(View()), a)
      ensures a == MAX_BLOCK <==> FreeCount(old(View())) == 0
      ensures View() == if a == MAX_BLOCK then old(View()) else old(View())[a := Claimed]
    {
      var i := 1;
      while i < MAX_BLOCK
        invariant 1 <= i <= MAX_BLOCK
        invariant forall j :: 1 <= j < i ==> !blocks[j].Free?
        invariant View() == old(View())
      {
        var block: Block := *;
        block := Bread(i, block);
        if Flag(block) == 0 {
          SomeFree(View(), i);
          var _ := Bwrite(i, Claimed);
          return i;
        }
        i := i + 1;
      }
      NoneFree(View());
      return MAX_BLOCK;
    }

    // Past the end of the disk nothing is freed.
    method Dfree(a: nat)
      requires Valid()
      modifies blocks
      ensures View() == if Place(a) < MAX_BLOCK then old(View())[Place(a) := Free] else old(View())
    {
      var _ := Bwrite(a, Free);
    }
  }
}
