// The records of fs.h as the 1024 bytes the device stores, the views that fs.c takes of them by
// casting, and the host-side allocator of mkfs.c, which looks at whole blocks.

module Layout {
  import opened CString
  import opened Blocks

  type Raw = s: seq<byte> | |s| == BLOCK_SIZE witness seq(BLOCK_SIZE, _ => 0)

  // ---------- Little-endian words ----------

  function Pow256(k: nat): (p: nat)
    ensures p > 0
  {
    if k == 0 then 1 else 256 * Pow256(k - 1)
  }

  function Le(x: nat, k: nat): (s: seq<byte>)
    ensures |s| == k
    decreases x, k
  {
    if k == 0 then [] else [x % 256] + Le(x / 256, k - 1)
  }

  function UnLe(s: seq<byte>): nat {
    if s == [] then 0 else s[0] + 256 * UnLe(s[1..])
  }

  lemma {:induction false} UnLeLe(x: nat, k: nat)
    requires x < Pow256(k)
    ensures UnLe(Le(x, k)) == x
    decreases k
  {
    if k > 0 {
      UnLeLe(x / 256, k - 1);
      assert Le(x, k)[1..] == Le(x / 256, k - 1);
    }
  }

  function Word(x: u64): (s: seq<byte>)
    ensures |s| == 8
    ensures UnLe(s) == x
  {
    assert Pow256(8) == 0x1_0000_0000_0000_0000;
    UnLeLe(x, 8);
    Le(x, 8)
  }

  function Zeros(n: nat): (s: seq<byte>)
    ensures |s| == n && forall i :: 0 <= i < n ==> s[i] == 0
  {
    seq(n, _ => 0)
  }

  // ---------- The records ----------

  // Byte i of a word stored at offset o.
  function WordByte(x: u64, o: nat, i: nat): byte
    requires o <= i < o + 8
  {
    Word(x)[i - o]
  }

  function SuperByte(root: u64, i: nat): byte {
    if i == 0 then 1 else if 8 <= i < 16 then WordByte(root, 8, i) else 0
  }

  function InodeByte(b: Block, i: nat): byte
    requires b.Inode?
  {
    if i == 0 then 1
    else if i == 1 then if b.isDir then 1 else 0
    else if i < 2 + |b.name| then b.name[i - 2]
    else if 264 <= i < 272 then WordByte(b.parent, 264, i)
    else if 272 <= i < 280 then WordByte(b.start, 272, i)
    else if 280 <= i < 288 then WordByte(b.size, 280, i)
    else if 312 <= i < 320 then WordByte(b.addr, 312, i)
    else 0
  }

  function CellByte(b: Block, i: nat): byte
    requires b.Cell?
  {
    if i == 0 then if b.last then 2 else 1
    else if 8 <= i < 16 then WordByte(b.addr, 8, i)
    else if 16 <= i < 24 then WordByte(b.inode, 16, i)
    else if 24 <= i < 32 then WordByte(b.next, 24, i)
    else 0
  }

  function DataByte(b: Block, i: nat): byte
    requires b.Data?
  {
    if i == 0 then 1
    else if i < 1000 then b.bytes[i - 1]
    else if i < 1008 then WordByte(b.addr, 1000, i)
    else if i < 1016 then WordByte(b.prev, 1008, i)
    else if i < 1024 then WordByte(b.next, 1016, i)
    else 0
  }

  function ByteAt(b: Block, i: nat): byte {
    match b
    case Free => 0
    case Super(root) => SuperByte(root, i)
    case Inode(_, _, _, _, _, _) => InodeByte(b, i)
    case Cell(_, _, _, _) => CellByte(b, i)
    case Data(_, _, _, _) => DataByte(b, i)
  }

  function Bytes(b: Block): (r: Raw)
    ensures forall i :: 0 <= i < BLOCK_SIZE ==> r[i] == ByteAt(b, i)
  {
    seq(BLOCK_SIZE, i requires 0 <= i < BLOCK_SIZE => ByteAt(b, i))
  }

  // The fields that a cast to each struct reads.
  function FlagOf(r: Raw): byte { r[0] }

  function SuperRoot(r: Raw): nat { UnLe(r[8..16]) }

  function InodeIsDir(r: Raw): bool { r[1] != 0 }
  ghost predicate InodeNamed(r: Raw) { HasNul(r, 2) }
  ghost function InodeName(r: Raw): text
    requires InodeNamed(r)
  {
    TextAt(r, 2)
  }
  function InodeParent(r: Raw): nat { UnLe(r[264..272]) }
  function InodeStart(r: Raw): nat { UnLe(r[272..280]) }
  function InodeSize(r: Raw): nat { UnLe(r[280..288]) }
  function InodeAddr(r: Raw): nat { UnLe(r[312..320]) }

  function CellAddr(r: Raw): nat { UnLe(r[8..16]) }
  function CellInode(r: Raw): nat { UnLe(r[16..24]) }
  function CellNext(r: Raw): nat { UnLe(r[24..32]) }

  function DataBytes(r: Raw): Chunk { r[1..1000] }
  function DataAddr(r: Raw): nat { UnLe(r[1000..1008]) }
  function DataPrev(r: Raw): nat { UnLe(r[1008..1016]) }
  function DataNext(r: Raw): nat { UnLe(r[1016..1024]) }

  // ---------- Round trips ----------

  // The first byte tells a free block from any other, and a free block from nothing else is zero.
  lemma FlagRoundTrip(b: Block)
    ensures FlagOf(Bytes(b)) == Flag(b)
    ensures FlagOf(Bytes(b)) == 0 <==> Bytes(b) == Zeros(BLOCK_SIZE)
    ensures FlagOf(Bytes(b)) == 0 <==> b == Free
  {
  }

  lemma SuperRoundTrip(root: u64)
    ensures SuperRoot(Bytes(Super(root))) == root
  {
    WordAt(Super(root), root, 8);
  }

  lemma InodeRoundTrip(b: Block)
    requires b.Inode?
    ensures var r := Bytes(b);
            InodeIsDir(r) == b.isDir && InodeNamed(r) && InodeName(r) == b.name
            && InodeParent(r) == b.parent && InodeStart(r) == b.start && InodeSize(r) == b.size
            && InodeAddr(r) == b.addr
  {
    InodeNameAt(b);
    InodeWords(b);
    assert Bytes(b)[1] == ByteAt(b, 1);
  }

  // The word stored at offset o.
  ghost predicate Stores(b: Block, x: u64, o: nat) {
    forall i :: 0 <= i < 8 ==> ByteAt(b, o + i) == Word(x)[i]
  }

  lemma WordAt(b: Block, x: u64, o: nat)
    requires o + 8 <= BLOCK_SIZE && Stores(b, x, o)
    ensures UnLe(Bytes(b)[o..o + 8]) == x
  {
    var r := Bytes(b);
    forall i | 0 <= i < 8
      ensures r[o..o + 8][i] == Word(x)[i]
    {
      assert r[o + i] == ByteAt(b, o + i);
    }
    assert r[o..o + 8] == Word(x);
  }

  lemma InodeNameAt(b: Block)
    requires b.Inode?
    ensures InodeNamed(Bytes(b)) && InodeName(Bytes(b)) == b.name
  {
    var r := Bytes(b);
    var e := 2 + |b.name|;
    assert forall k :: 2 <= k < e ==> r[k] == b.name[k - 2];
    assert r[e] == 0;
    TextIs(r, 2, e);
    assert r[2..e] == b.name;
  }

  lemma CellRoundTrip(b: Block)
    requires b.Cell?
    ensures var r := Bytes(b);
            (FlagOf(r) == 2 <==> b.last) && CellAddr(r) == b.addr && CellInode(r) == b.inode
            && CellNext(r) == b.next
  {
    WordAt(b, b.addr, 8);
    WordAt(b, b.inode, 16);
    WordAt(b, b.next, 24);
  }

  lemma DataRoundTrip(b: Block)
    requires b.Data?
    ensures var r := Bytes(b);
            DataBytes(r) == b.bytes && DataAddr(r) == b.addr && DataPrev(r) == b.prev && DataNext(r) == b.next
  {
    var r := Bytes(b);
    assert r[1..1000] == b.bytes;
    WordAt(b, b.addr, 1000);
    WordAt(b, b.prev, 1008);
    WordAt(b, b.next, 1016);
  }

  // ---------- Where the compiler puts the fields ----------

  // A member of a struct: its size and its alignment.
  datatype Member = Member(size: nat, align: nat)

  const BYTE := Member(1, 1)
  const WORD := Member(8, 8)

  // The first multiple of the alignment from end on.
  function Aligned(end: nat, align: nat): nat {
    if align <= 1 || end % align == 0 then end else end + align - end % align
  }

  function Offset(members: seq<Member>, k: nat): nat
    requires k < |members|
    decreases members, k
  {
    if k == 0 then 0 else Aligned(Offset(members, k - 1) + members[k - 1].size, members[k].align)
  }

  // fs_metadata_t, inode_t, ilist_t and block_t.
  function SuperMembers(): seq<Member> { [BYTE, WORD] }

  function InodeMembers(): seq<Member> {
    [BYTE, BYTE, Member(256, 1), WORD, WORD, WORD, WORD, WORD, WORD, WORD]
  }

  function CellMembers(): seq<Member> { [BYTE, WORD, WORD, WORD] }

  function DataMembers(): seq<Member> { [BYTE, Member(999, 1), WORD, WORD, WORD] }

  lemma SuperOffsets(m: seq<Member>)
    requires m == SuperMembers()
    ensures Offset(m, 1) == 8
  {
    assert Offset(m, 0) == 0;
  }

  lemma {:induction false} InodeOffsets(m: seq<Member>)
    requires m == InodeMembers()
    ensures Offset(m, 1) == 1 && Offset(m, 2) == 2 && Offset(m, 3) == 264 && Offset(m, 4) == 272
    ensures Offset(m, 5) == 280 && Offset(m, 9) == 312
  {
    assert Offset(m, 0) == 0;
    assert Offset(m, 2) == 2;
    assert Offset(m, 4) == 272;
    assert Offset(m, 6) == 288;
    assert Offset(m, 7) == 296;
    assert Offset(m, 8) == 304;
  }

  lemma {:induction false} CellOffsets(m: seq<Member>)
    requires m == CellMembers()
    ensures Offset(m, 1) == 8 && Offset(m, 2) == 16 && Offset(m, 3) == 24
  {
    assert Offset(m, 0) == 0;
  }

  lemma {:induction false} DataOffsets(m: seq<Member>)
    requires m == DataMembers()
    ensures Offset(m, 1) == 1 && Offset(m, 2) == 1000 && Offset(m, 3) == 1008 && Offset(m, 4) == 1016
  {
    assert Offset(m, 0) == 0;
  }

  // Member k holds the bytes xs, or the word x.
  predicate HasBytes(r: Raw, members: seq<Member>, k: nat, xs: seq<byte>) {
    k < |members| && Offset(members, k) + |xs| <= BLOCK_SIZE
    && r[Offset(members, k)..Offset(members, k) + |xs|] == xs
  }

  predicate HasWord(r: Raw, members: seq<Member>, k: nat, x: nat) {
    k < |members| && Offset(members, k) + 8 <= BLOCK_SIZE
    && UnLe(r[Offset(members, k)..Offset(members, k) + 8]) == x
  }

  lemma FirstByte(b: Block, members: seq<Member>)
    requires members != []
    ensures HasBytes(Bytes(b), members, 0, [Flag(b)])
  {
    assert Offset(members, 0) == 0 && Bytes(b)[0] == ByteAt(b, 0);
    assert Bytes(b)[0..1] == [Bytes(b)[0]];
  }

  // Every field of a record is stored where its struct has it.
  lemma SuperAsStruct(root: u64)
    ensures HasBytes(Bytes(Super(root)), SuperMembers(), 0, [1]) && HasWord(Bytes(Super(root)), SuperMembers(), 1, root)
  {
    FirstByte(Super(root), SuperMembers());
    SuperOffsets(SuperMembers());
    SuperRoundTrip(root);
  }

  lemma InodeAsStruct(b: Block)
    requires b.Inode?
    ensures var r, m := Bytes(b), InodeMembers();
            HasBytes(r, m, 0, [1]) && HasBytes(r, m, 1, [if b.isDir then 1 else 0]) && HasBytes(r, m, 2, b.name + [0])
            && HasWord(r, m, 3, b.parent) && HasWord(r, m, 4, b.start) && HasWord(r, m, 5, b.size)
            && HasWord(r, m, 9, b.addr)
  {
    FirstByte(b, InodeMembers());
    InodeOffsets(InodeMembers());
    InodeWords(b);
    NameBytes(b, Bytes(b));
  }

  lemma InodeWords(b: Block)
    requires b.Inode?
    ensures var r := Bytes(b);
            UnLe(r[264..272]) == b.parent && UnLe(r[272..280]) == b.start && UnLe(r[280..288]) == b.size
            && UnLe(r[312..320]) == b.addr
  {
    WordAt(b, b.parent, 264);
    WordAt(b, b.start, 272);
    WordAt(b, b.size, 280);
    WordAt(b, b.addr, 312);
  }

  lemma NameBytes(b: Block, r: Raw)
    requires b.Inode? && forall i :: 0 <= i < BLOCK_SIZE ==> r[i] == InodeByte(b, i)
    ensures r[1..2] == [if b.isDir then 1 else 0] && r[2..2 + |b.name + [0]|] == b.name + [0]
  {
  }

  lemma CellAsStruct(b: Block)
    requires b.Cell?
    ensures var r, m := Bytes(b), CellMembers();
            HasBytes(r, m, 0, [if b.last then 2 else 1]) && HasWord(r, m, 1, b.addr) && HasWord(r, m, 2, b.inode)
            && HasWord(r, m, 3, b.next)
  {
    FirstByte(b, CellMembers());
    CellOffsets(CellMembers());
    CellRoundTrip(b);
  }

  lemma DataAsStruct(b: Block)
    requires b.Data?
    ensures var r, m := Bytes(b), DataMembers();
            HasBytes(r, m, 0, [1]) && HasBytes(r, m, 1, b.bytes) && HasWord(r, m, 2, b.addr)
            && HasWord(r, m, 3, b.prev) && HasWord(r, m, 4, b.next)
  {
    FirstByte(b, DataMembers());
    DataOffsets(DataMembers());
    DataRoundTrip(b);
  }

  lemma {:induction false} LeZero(k: nat)
    ensures forall i :: 0 <= i < k ==> Le(0, k)[i] == 0
  {
    if k > 0 { LeZero(k - 1); }
  }

  // What dalloc writes: a one and zeros.
  lemma ClaimedBytes(i: nat)
    requires i < BLOCK_SIZE
    ensures Bytes(Claimed)[i] == if i == 0 then 1 else 0
  {
    LeZero(8);
    assert Bytes(Claimed)[i] == ByteAt(Claimed, i);
  }

  // ---------- Zero fields ----------

  lemma {:induction false} UnLeZeros(s: seq<byte>)
    requires forall i :: 0 <= i < |s| ==> s[i] == 0
    ensures UnLe(s) == 0
  {
    if s != [] { UnLeZeros(s[1..]); }
  }

  lemma ZeroFields(b: Block)
    requires b.Data? && forall i :: 0 <= i < 31 ==> b.bytes[i] == 0
    ensures var r := Bytes(b); FlagOf(r) == 1 && CellInode(r) == 0 && CellNext(r) == 0
  {
    var r := Bytes(b);
    assert forall k :: 1 <= k < 32 ==> r[k] == b.bytes[k - 1];
    UnLeZeros(r[16..24]);
    UnLeZeros(r[24..32]);
  }

  // Block 0 read as an inode has the empty name; read as a list node it is followed by itself.
  lemma SuperFields(b: Block)
    requires b.Super?
    ensures var r := Bytes(b);
            FlagOf(r) == 1 && CellInode(r) == 0 && CellNext(r) == 0 && InodeNamed(r) && InodeName(r) == []
  {
    var r := Bytes(b);
    assert forall k :: 16 <= k < 32 ==> r[k] == 0;
    UnLeZeros(r[16..24]);
    UnLeZeros(r[24..32]);
    assert r[2] == 0;
    TextIs(r, 2, 2);
    assert r[2..2] == [];
  }

  // ---------- mkfs.c ----------

  function ImageBytes(d: Image): seq<Raw> {
    seq(|d|, i requires 0 <= i < |d| => Bytes(d[i]))
  }

  // The block of ones that mkfs.c claims a block with.
  function Ones(): Raw {
    seq(BLOCK_SIZE, _ => 1)
  }

  const ONES_WORD: u64 := 0x0101_0101_0101_0101

  function OnesBlock(): Block {
    Data(seq(DATA_SIZE, _ => 1), ONES_WORD, ONES_WORD, ONES_WORD)
  }

  class DiskFile {
    const blocks: array<Raw>

    constructor (n: nat)
      ensures fresh(blocks) && blocks.Length == n
      ensures forall i :: 0 <= i < n ==> blocks[i] == Zeros(BLOCK_SIZE)
    {
      blocks := new Raw[n](_ => Zeros(BLOCK_SIZE));
    }

    // dalloc of mkfs.c: reading past the end of the file ends the scan.
    method Dalloc() returns (addr: nat)
      requires blocks.Length >= 1
      modifies blocks
      ensures 1 <= addr
      ensures if addr < blocks.Length && old(blocks[addr]) == Zeros(BLOCK_SIZE) then
                blocks[..] == old(blocks[..])[addr := Ones()]
                && forall j :: 1 <= j < addr ==> old(blocks[j]) != Zeros(BLOCK_SIZE)
              else addr == MAX_BLOCK && blocks[..] == old(blocks[..])
                   && forall j :: 1 <= j < blocks.Length ==> blocks[j] != Zeros(BLOCK_SIZE)
    {
      addr := 1;
      while addr < blocks.Length
        invariant 1 <= addr <= blocks.Length
        invariant forall j :: 1 <= j < addr ==> blocks[j] != Zeros(BLOCK_SIZE)
        invariant blocks[..] == old(blocks[..])
      {
        var buffer := blocks[addr];
        var allZero := true;
        var i := 0;
        while i < BLOCK_SIZE
          invariant 0 <= i <= BLOCK_SIZE
          invariant allZero ==> forall k :: 0 <= k < i ==> buffer[k] == 0
          invariant !allZero ==> buffer != Zeros(BLOCK_SIZE)
        {
          if buffer[i] != 0 {
            assert Zeros(BLOCK_SIZE)[i] == 0;
            allZero := false;
            break;
          }
          i := i + 1;
        }
        if allZero {
          assert buffer == Zeros(BLOCK_SIZE);
          blocks[addr] := Ones();
          return;
        }
        addr := addr + 1;
      }
      return MAX_BLOCK;
    }
  }

  // The kernel tests the first byte, mkfs the whole block: on the bytes of any image of typed
  // blocks the two pick the same block, and both leave an image of typed blocks.
  lemma SamePick(d: Image, a: nat)
    ensures IsLowestFree(d, a) <==>
              1 <= a <= MAX_BLOCK
              && (a < MAX_BLOCK ==> ImageBytes(d)[a] == Zeros(BLOCK_SIZE))
              && (forall j :: 1 <= j < a ==> ImageBytes(d)[j] != Zeros(BLOCK_SIZE))
  {
    forall j | 1 <= j < MAX_BLOCK
      ensures d[j].Free? <==> ImageBytes(d)[j] == Zeros(BLOCK_SIZE)
    {
      FlagRoundTrip(d[j]);
    }
  }

  lemma OnesIsData()
    ensures Bytes(OnesBlock()) == Ones()
  {
    var w := OnesNat(8);
    OnesLe(8);
    assert w == ONES_WORD;
  }

  function OnesNat(k: nat): nat {
    if k == 0 then 0 else 1 + 256 * OnesNat(k - 1)
  }

  lemma {:induction false} OnesLe(k: nat)
    ensures forall i :: 0 <= i < k ==> Le(OnesNat(k), k)[i] == 1
  {
    if k > 0 {
      OnesLe(k - 1);
      assert OnesNat(k) % 256 == 1 && OnesNat(k) / 256 == OnesNat(k - 1);
    }
  }

  // Both allocators run on the same disk: same block, and images that still match.
  method Agree(dev: Device, file: DiskFile) returns (a: nat, b: nat)
    requires dev.Valid() && file.blocks != dev.blocks as object
    requires file.blocks[..] == ImageBytes(dev.View())
    modifies dev.blocks, file.blocks
    ensures a == b
    ensures a < MAX_BLOCK ==> file.blocks[..] == ImageBytes(dev.View()[a := OnesBlock()])
    ensures a == MAX_BLOCK ==> file.blocks[..] == ImageBytes(dev.View())
  {
    ghost var d := dev.View();
    ghost var f := file.blocks[..];
    assert |f| == MAX_BLOCK;
    SamePick(d, MAX_BLOCK);
    a := dev.Dalloc();
    SamePick(d, a);
    b := file.Dalloc();
    assert forall j :: 0 <= j < MAX_BLOCK ==> old(file.blocks[j]) == f[j];
    SamePick(d, b);
    OnesIsData();
  }
}
