// The loop of fs_write: blocks of the chain are rewritten one by one, and the chain grows while
// data remains.

module FsWriting {
  import opened CString
  import opened Blocks
  import opened DirTree
  import opened FsSpec
  import opened Shapes
  import opened ShapeFile
  import opened FsLists
  import opened Options

  // Every block of the chain but the skipped one is on the disk as n says.
  ghost predicate ChainOn(d: Image, n: Node, skip: int)
    requires n.FileN? && |n.chunks| == |n.chain|
  {
    forall j {:trigger DataIs(d[n.chain[j]], n, j)} ::
      0 <= j < |n.chain| && j != skip ==> n.chain[j] < MAX_BLOCK && DataIs(d[n.chain[j]], n, j)
  }

  // What the loop keeps while the chain holds: d0 is the disk before the call, n the file so far.
  ghost predicate Sound(d0: Image, s: Shape, f: nat, size: nat, d: Image, n: Node) {
    n.FileN? && |n.chunks| == |n.chain| && n.chain != [] && Extends(s, f, n.chain)
    && n == Rewritten(s.nodes[f], n.chain, n.chunks, size)
    && (forall j :: |s.nodes[f].chain| <= j < |n.chain| ==> n.chain[j] < MAX_BLOCK && d0[n.chain[j]].Free?)
    && (forall j :: 0 <= j < |n.chain| ==> 1 <= n.chain[j] < MAX_BLOCK)
    && (forall y :: 0 <= y < MAX_BLOCK && y !in n.chain ==> d[y] == d0[y])
    && FreeCount(d) + |n.chain| == FreeCount(d0) + |s.nodes[f].chain|
  }

  // Before block i is filled: the i blocks before it hold the first bytes of the data.
  ghost predicate AtBlock(d0: Image, s: Shape, f: nat, data: seq<byte>, d: Image, n: Node, i: nat, block: Block) {
    Sound(d0, s, f, |data|, d, n) && i < |n.chain| && DataIs(block, n, i)
    && ChainOn(d, n, if i >= |s.nodes[f].chain| then i else -1)
    && (|n.chain| > |s.nodes[f].chain| ==> |n.chain| == i + 1)
    && DATA_SIZE * i < |data|
    && Flatten(n.chunks)[..DATA_SIZE * i] == data[..DATA_SIZE * i]
    && (i >= |s.nodes[f].chain| ==> d[n.chain[i]] == Claimed)
  }

  // After the last block.
  ghost predicate Written(d0: Image, s: Shape, f: nat, data: seq<byte>, d: Image, n: Node) {
    Sound(d0, s, f, |data|, d, n) && ChainOn(d, n, -1)
    && |data| <= DATA_SIZE * |n.chain| && Flatten(n.chunks)[..|data|] == data
    && |n.chain| == |s.nodes[f].chain| + Extra(Tree.File([], [], |s.nodes[f].chain|), |data|)
  }

  // Once an allocation has failed: the chain points past the disk and nothing more is written.
  ghost predicate Lost(d0: Image, s: Shape, f: nat, data: seq<byte>, d: Image) {
    f in s.nodes && s.nodes[f].FileN? && s.nodes[f].chain != []
    && Extra(Tree.File([], [], |s.nodes[f].chain|), |data|) > FreeCount(d0)
    && FreeCount(d) == 0
    && (forall m :: !ChainEnds(d, s.nodes[f].chain[0], m))
    && (f < MAX_BLOCK ==> d[f] == d0[f])
    && Untouched(d0, d, s.nodes[f].chain)
  }

  // memcpy of the next bytes over the front of a chunk.
  function Filled(data: seq<byte>, offset: nat, old': Chunk): (c: Chunk)
    requires offset <= |data|
  {
    var k := if |data| - offset < DATA_SIZE then |data| - offset else DATA_SIZE;
    data[offset..offset + k] + old'[k..]
  }

  function Fill(n: Node, i: nat, data: seq<byte>): (r: Node)
    requires n.FileN? && i < |n.chunks| && DATA_SIZE * i <= |data|
    ensures r.FileN? && r.chain == n.chain && |r.chunks| == |n.chunks|
  {
    n.(chunks := n.chunks[i := Filled(data, DATA_SIZE * i, n.chunks[i])])
  }

  lemma FillBytes(n: Node, i: nat, data: seq<byte>)
    requires n.FileN? && i < |n.chunks| && DATA_SIZE * i < |data|
    requires Flatten(n.chunks)[..DATA_SIZE * i] == data[..DATA_SIZE * i]
    ensures var k := if |data| - DATA_SIZE * i < DATA_SIZE then |data| - DATA_SIZE * i else DATA_SIZE;
            Flatten(Fill(n, i, data).chunks)[..DATA_SIZE * i + k] == data[..DATA_SIZE * i + k]
  {
    var o := DATA_SIZE * i;
    var k := if |data| - o < DATA_SIZE then |data| - o else DATA_SIZE;
    var chunks := Fill(n, i, data).chunks;
    FlattenPrefix(n.chunks, i);
    FlattenPrefix(chunks, i);
    assert chunks[..i] == n.chunks[..i];
    FlattenNext(chunks, i, k);
    assert chunks[i][..k] == data[o..o + k];
    assert data[..o] + data[o..o + k] == data[..o + k];
  }

  // The filled block replaces block i; the rest of the chain is as before.
  lemma FillChain(d: Image, n: Node, i: nat, data: seq<byte>, block: Block, skip: int)
    requires n.FileN? && |n.chunks| == |n.chain| && i < |n.chain| && DATA_SIZE * i <= |data|
    requires ChainOn(d, n, skip) && (skip == -1 || skip == i) && NoDup(n.chain)
    requires forall j :: 0 <= j < |n.chain| ==> n.chain[j] < MAX_BLOCK
    requires DataIs(block, Fill(n, i, data), i)
    ensures ChainOn(d[n.chain[i] := block], Fill(n, i, data), -1)
  {
    var n', d' := Fill(n, i, data), d[n.chain[i] := block];
    forall j | 0 <= j < |n'.chain|
      ensures n'.chain[j] < MAX_BLOCK && DataIs(d'[n'.chain[j]], n', j)
    {
      if j != i {
        assert DataIs(d[n.chain[j]], n, j);
        assert n.chain[j] != n.chain[i];
      }
    }
  }

  // Nothing but block i changes.
  lemma FillSound(d0: Image, s: Shape, f: nat, data: seq<byte>, d: Image, n: Node, i: nat, block: Block)
    requires Sound(d0, s, f, |data|, d, n) && i < |n.chain| && DATA_SIZE * i <= |data|
    requires !d[n.chain[i]].Free? && !block.Free?
    ensures Sound(d0, s, f, |data|, d[n.chain[i] := block], Fill(n, i, data))
  {
    FreeAfterOverwrite(d, n.chain[i], block);
  }

  lemma NotFreeAt(d0: Image, s: Shape, f: nat, data: seq<byte>, d: Image, n: Node, i: nat, block: Block)
    requires AtBlock(d0, s, f, data, d, n, i, block)
    ensures !d[n.chain[i]].Free?
  {
    if i < |s.nodes[f].chain| { assert DataIs(d[n.chain[i]], n, i); }
  }

  // The last block of the data.
  lemma LastStep(d0: Image, s: Shape, f: nat, data: seq<byte>, d: Image, n: Node, i: nat, block: Block, out: Block)
    requires AtBlock(d0, s, f, data, d, n, i, block) && |data| - DATA_SIZE * i <= DATA_SIZE
    requires out == block.(bytes := Filled(data, DATA_SIZE * i, block.bytes))
    ensures Written(d0, s, f, data, d[n.chain[i] := out], Fill(n, i, data))
  {
    var n' := Fill(n, i, data);
    NotFreeAt(d0, s, f, data, d, n, i, block);
    FillSound(d0, s, f, data, d, n, i, out);
    FillChain(d, n, i, data, out, if i >= |s.nodes[f].chain| then i else -1);
    FillBytes(n, i, data);
    assert DATA_SIZE * i + (|data| - DATA_SIZE * i) == |data|;
    assert data[..|data|] == data;
    assert BlocksFor(|data|) == i + 1;
  }

  // A block in the middle of the chain.
  lemma NextStep(d0: Image, s: Shape, f: nat, data: seq<byte>, d: Image, n: Node, i: nat, block: Block, out: Block)
    requires AtBlock(d0, s, f, data, d, n, i, block) && |data| - DATA_SIZE * i > DATA_SIZE
    requires out == block.(bytes := Filled(data, DATA_SIZE * i, block.bytes)) && block.next != 0
    ensures i + 1 < |n.chain| && block.next == n.chain[i + 1] < MAX_BLOCK
    ensures var d' := d[n.chain[i] := out];
            AtBlock(d0, s, f, data, d', Fill(n, i, data), i + 1, d'[n.chain[i + 1]])
  {
    var n', d' := Fill(n, i, data), d[n.chain[i] := out];
    assert |n.chain| == |s.nodes[f].chain|;
    NotFreeAt(d0, s, f, data, d, n, i, block);
    FillSound(d0, s, f, data, d, n, i, out);
    FillChain(d, n, i, data, out, -1);
    FillBytes(n, i, data);
    assert DataIs(d'[n'.chain[i + 1]], n', i + 1);
  }

  function Longer(n: Node, c: nat, junk: Chunk): Node
    requires n.FileN?
  {
    n.(chain := n.chain + [c], chunks := n.chunks + [junk])
  }

  lemma LongerChain(d: Image, n: Node, i: nat, data: seq<byte>, block: Block, c: nat, junk: Chunk, skip: int)
    requires n.FileN? && |n.chunks| == |n.chain| && i + 1 == |n.chain| && DATA_SIZE * i <= |data|
    requires ChainOn(d, n, skip) && (skip == -1 || skip == i) && NoDup(n.chain)
    requires forall j :: 0 <= j < |n.chain| ==> n.chain[j] < MAX_BLOCK
    requires c < MAX_BLOCK && c !in n.chain
    requires DataIs(block, Longer(Fill(n, i, data), c, junk), i)
    ensures ChainOn(d[c := Claimed][n.chain[i] := block], Longer(Fill(n, i, data), c, junk), i + 1)
  {
    var n', d' := Longer(Fill(n, i, data), c, junk), d[c := Claimed][n.chain[i] := block];
    forall j | 0 <= j < |n'.chain| && j != i + 1
      ensures n'.chain[j] < MAX_BLOCK && DataIs(d'[n'.chain[j]], n', j)
    {
      if j != i {
        assert DataIs(d[n.chain[j]], n, j);
        assert n.chain[j] != n.chain[i] && n.chain[j] != c && n'.chain[j] == n.chain[j];
        assert n'.chain[j + 1] == n.chain[j + 1];
      }
    }
  }

  // The end of the chain with data left and a block to spare.
  lemma GrowStep(d0: Image, s: Shape, f: nat, data: seq<byte>, d: Image, n: Node, i: nat, block: Block,
                 out: Block, c: nat, junk: Chunk, fresh': Block)
    requires AtBlock(d0, s, f, data, d, n, i, block) && |data| - DATA_SIZE * i > DATA_SIZE
    requires WF(d0, s) && block.next == 0 && 1 <= c < MAX_BLOCK && d[c].Free?
    requires out == Data(Filled(data, DATA_SIZE * i, block.bytes), block.addr, block.prev, c)
    requires fresh' == Data(junk, c, block.addr, 0)
    ensures var d', n' := d[c := Claimed][n.chain[i] := out], Longer(Fill(n, i, data), c, junk);
            AtBlock(d0, s, f, data, d', n', i + 1, fresh')
  {
    var d' := d[c := Claimed][n.chain[i] := out];
    var m := Fill(n, i, data);
    var n' := Longer(m, c, junk);
    NotFreeAt(d0, s, f, data, d, n, i, block);
    assert i + 1 == |n.chain|;
    forall j | 0 <= j < i ensures !d[n.chain[j]].Free? { assert DataIs(d[n.chain[j]], n, j); }
    GrowSound(d0, s, f, data, d, n, i, out, c, junk);
    LongerChain(d, n, i, data, out, c, junk, if i >= |s.nodes[f].chain| then i else -1);
    FillBytes(n, i, data);
    var o := DATA_SIZE * (i + 1);
    FlattenPrefix(n'.chunks, i + 1);
    assert n'.chunks[..i + 1] == m.chunks;
    assert Flatten(m.chunks)[..o] == Flatten(m.chunks);
  }

  lemma GrowSound(d0: Image, s: Shape, f: nat, data: seq<byte>, d: Image, n: Node, i: nat, out: Block,
                  c: nat, junk: Chunk)
    requires Sound(d0, s, f, |data|, d, n) && WF(d0, s) && i + 1 == |n.chain| && DATA_SIZE * i <= |data|
    requires !d[n.chain[i]].Free? && !out.Free? && 1 <= c < MAX_BLOCK && d[c].Free?
    requires forall j :: 0 <= j < i ==> !d[n.chain[j]].Free?
    ensures c !in n.chain
    ensures Sound(d0, s, f, |data|, d[c := Claimed][n.chain[i] := out], Longer(Fill(n, i, data), c, junk))
  {
    var d' := d[c := Claimed][n.chain[i] := out];
    var n' := Longer(Fill(n, i, data), c, junk);
    FreeAfterClaim(d, c, Claimed);
    FreeAfterOverwrite(d[c := Claimed], n.chain[i], out);
    assert c !in n.chain;
    assert d0[c].Free?;
    if c in s.own { InUse(d0, s, c); assert false; }
    assert n'.chain == n.chain + [c] && s.nodes[f].chain <= n'.chain;
    assert NoDup(n'.chain);
    forall y | 0 <= y < MAX_BLOCK && y !in n'.chain ensures d'[y] == d0[y] {
      assert y !in n.chain by { assert n'.chain[..|n.chain|] == n.chain; }
      assert y != c by { assert n'.chain[|n.chain|] == c; }
      assert y != n.chain[i] by { assert n.chain[i] in n.chain; }
    }
  }

  // The end of the chain with data left and no block to spare: the block that is written points
  // past the disk.
  lemma LoseStep(d0: Image, s: Shape, f: nat, data: seq<byte>, d: Image, n: Node, i: nat, block: Block, out: Block)
    requires AtBlock(d0, s, f, data, d, n, i, block) && |data| - DATA_SIZE * i > DATA_SIZE
    requires WF(d0, s) && block.next == 0 && FreeCount(d) == 0
    requires out == Data(Filled(data, DATA_SIZE * i, block.bytes), block.addr, block.prev, MAX_BLOCK)
    ensures Lost(d0, s, f, data, d[n.chain[i] := out])
  {
    var d' := d[n.chain[i] := out];
    assert i + 1 == |n.chain|;
    NotFreeAt(d0, s, f, data, d, n, i, block);
    FreeAfterOverwrite(d, n.chain[i], out);
    forall k | 0 <= k < |n.chain|
      ensures DataOverrun(d', n.chain[k], Successor(n.chain, k))
    {
      if k != i {
        assert DataIs(d[n.chain[k]], n, k);
        assert n.chain[k] != n.chain[i];
      }
    }
    NodeFacts(d0, s, f);
    assert Parts(s.nodes[f])[0] == n.chain[0];
    forall m: nat
      ensures !ChainEnds(d', s.nodes[f].chain[0], m)
    {
      OverrunChain(d', n.chain, 0, m);
    }
    assert BlocksFor(|data|) > |n.chain|;
    InodeNotInChain(d0, s, f, n);
  }

  lemma InodeNotInChain(d0: Image, s: Shape, f: nat, n: Node)
    requires WF(d0, s) && n.FileN? && Extends(s, f, n.chain)
    ensures f !in n.chain
  {
    NodeFacts(d0, s, f);
    forall j | 0 <= j < |n.chain| ensures n.chain[j] != f {
      if j < |s.nodes[f].chain| { assert Parts(s.nodes[f])[j] == n.chain[j]; }
    }
  }

  // Before the loop.
  lemma StartAt(d: Image, s: Shape, f: nat, data: seq<byte>)
    requires WF(d, s) && f in s.nodes && s.nodes[f].FileN?
    ensures var n := Rewritten(s.nodes[f], s.nodes[f].chain, s.nodes[f].chunks, |data|);
            n.chain != [] && n.chain[0] < MAX_BLOCK
            && (data == [] ==> Written(d, s, f, data, d, n))
            && (data != [] ==> AtBlock(d, s, f, data, d, n, 0, d[n.chain[0]]))
  {
    NodeFacts(d, s, f);
    var m := s.nodes[f];
    var n := Rewritten(m, m.chain, m.chunks, |data|);
    forall j | 0 <= j < |n.chain|
      ensures 1 <= n.chain[j] < MAX_BLOCK && DataIs(d[n.chain[j]], n, j)
    {
      PartInUse(d, s, f, j);
      assert DataIs(d[Parts(m)[j]], m, j);
    }
    assert NoDup(Parts(m));
  }

  // After the loop and the new inode.
  lemma WrittenOk(d0: Image, s: Shape, f: nat, data: seq<byte>, d: Image, n: Node, ip: seq<nat>, inode: Block)
    requires WF(d0, s) && ValidPath(AbsRoot(s), ip) && NodeAt(s, s.root, ip) == f
    requires f in s.nodes && s.nodes[f].FileN? && Written(d0, s, f, data, d, n) && f < MAX_BLOCK
    requires InodeIs(inode, f, n)
    ensures var d', s', t := d[f := inode], Rewrite(s, f, n), Get(AbsRoot(s), ip);
            WF(d', s')
            && StateOf(d', s') == FsState(Put(AbsRoot(s), ip, Tree.File(t.name, data, t.blocks + Extra(t, |data|))),
                                          FreeCount(d0) - Extra(t, |data|), |Leaked(d0, s)|)
  {
    WrittenShape(d0, s, f, data, d, n, ip, inode);
    WrittenCount(d0, s, f, data, d, n, inode);
  }

  lemma WrittenCount(d0: Image, s: Shape, f: nat, data: seq<byte>, d: Image, n: Node, inode: Block)
    requires WF(d0, s) && f in s.nodes && s.nodes[f].FileN? && Written(d0, s, f, data, d, n) && f < MAX_BLOCK
    requires InodeIs(inode, f, n)
    ensures FreeCount(d[f := inode]) + |n.chain| == FreeCount(d0) + |s.nodes[f].chain|
  {
    NodeFacts(d0, s, f);
    InodeNotInChain(d0, s, f, n);
    assert d[f] == d0[f];
    FreeAfterOverwrite(d, f, inode);
  }

  lemma WrittenShape(d0: Image, s: Shape, f: nat, data: seq<byte>, d: Image, n: Node, ip: seq<nat>, inode: Block)
    requires WF(d0, s) && ValidPath(AbsRoot(s), ip) && NodeAt(s, s.root, ip) == f
    requires f in s.nodes && s.nodes[f].FileN? && Written(d0, s, f, data, d, n) && f < MAX_BLOCK
    requires InodeIs(inode, f, n)
    ensures var d', s' := d[f := inode], Rewrite(s, f, n);
            WF(d', s') && Leaked(d', s') == Leaked(d0, s)
            && AbsRoot(s') == Put(AbsRoot(s), ip, Tree.File(n.name, data, |n.chain|))
  {
    var d' := d[f := inode];
    InodeNotInChain(d0, s, f, n);
    WrittenNode(d0, s, f, data, d, n, inode);
    assert forall y :: 0 <= y < MAX_BLOCK && y != f && y !in n.chain ==> d'[y] == d[y] == d0[y];
    RewriteOk(d0, d', s, f, ip, n);
    assert Content(n) == data;
  }

  lemma WrittenNode(d0: Image, s: Shape, f: nat, data: seq<byte>, d: Image, n: Node, inode: Block)
    requires f in s.nodes && s.nodes[f].FileN? && Written(d0, s, f, data, d, n) && f < MAX_BLOCK
    requires InodeIs(inode, f, n) && f !in n.chain
    ensures NodeOk(d[f := inode], f, n)
  {
  }

  // ---------- The loop as a whole ----------

  // A write that the device carries out when the address is on the disk.
  function Stored(d: Image, block: Block): Image
    requires block.Data?
  {
    if block.addr < MAX_BLOCK then d[block.addr := block] else d
  }

  // What one pass does to the disk after filling the block: it stores the block, and unless it was
  // the last one the next block is fetched, or allocated with arbitrary contents.
  ghost predicate Advanced(d: Image, block: Block, more: bool, d': Image, next: Block, c: nat, junk: Chunk)
    requires block.Data? && block.next < MAX_BLOCK
  {
    if more && block.next == 0 then
      (c == MAX_BLOCK <==> FreeCount(d) == 0) && IsLowestFree(d, c)
      && next == Data(junk, c, block.addr, 0)
      && d' == Stored(if c == MAX_BLOCK then d else d[c := Claimed],
                      Data(block.bytes, block.addr, block.prev, c))
    else d' == Stored(d, block) && (more ==> next == d'[block.next])
  }

  // The invariant of the loop.
  ghost predicate Writing(d0: Image, s: Shape, f: nat, data: seq<byte>, d: Image, n: Node, i: nat,
                          block: Block, remain: nat, lost: bool) {
    if lost then
      Lost(d0, s, f, data, d)
      && (remain != 0 ==> block.Data? && block.addr == MAX_BLOCK && block.next == 0)
    else if remain == 0 then Written(d0, s, f, data, d, n)
    else AtBlock(d0, s, f, data, d, n, i, block) && remain == |data| - DATA_SIZE * i
  }

  lemma WritingBlock(d0: Image, s: Shape, f: nat, data: seq<byte>, d: Image, n: Node, i: nat,
                     block: Block, remain: nat, lost: bool)
    requires Writing(d0, s, f, data, d, n, i, block, remain, lost) && remain != 0
    ensures block.Data? && block.addr <= MAX_BLOCK && block.next < MAX_BLOCK
    ensures !lost ==> block.addr == n.chain[i]
  {
  }

  // One pass keeps the invariant.
  lemma WriteStep(d0: Image, s: Shape, f: nat, data: seq<byte>, d: Image, n: Node, i: nat,
                  was: Block, block: Block, next: Block, c: nat, junk: Chunk, remain: nat, lost: bool, d': Image)
    returns (n': Node, lost': bool)
    requires WF(d0, s) && i >= 0
    requires var left := if lost then remain + 1 else |data| - DATA_SIZE * i;
             left > 0 && Writing(d0, s, f, data, d, n, i, was, left, lost)
             && (!lost ==> remain == if left < DATA_SIZE then 0 else left - DATA_SIZE)
    requires was.Data? && block.Data? && block.addr == was.addr && block.next == was.next && block.prev == was.prev
    requires !lost ==> DATA_SIZE * i <= |data| && block.bytes == Filled(data, DATA_SIZE * i, was.bytes)
    requires block.next < MAX_BLOCK && Advanced(d, block, remain != 0, d', next, c, junk)
    ensures Writing(d0, s, f, data, d', n', i + 1, next, remain, lost')
  {
    n', lost' := n, lost;
    if !lost {
      if remain == 0 {
        LastStep(d0, s, f, data, d, n, i, was, block);
        n' := Fill(n, i, data);
      } else if block.next != 0 {
        NextStep(d0, s, f, data, d, n, i, was, block);
        n' := Fill(n, i, data);
      } else {
        var out := Data(block.bytes, block.addr, block.prev, c);
        if c == MAX_BLOCK {
          LoseStep(d0, s, f, data, d, n, i, was, out);
          lost' := true;
        } else {
          GrowStep(d0, s, f, data, d, n, i, was, out, c, junk, next);
          n' := Longer(Fill(n, i, data), c, junk);
        }
      }
    }
  }

  // The inode written last does not mend the chain.
  lemma StillLost(d0: Image, s: Shape, f: nat, data: seq<byte>, d: Image, inode: Block, d': Image)
    requires Lost(d0, s, f, data, d) && f < MAX_BLOCK && d0[f].Inode? && inode.Inode? && d' == d[f := inode]
    ensures forall m :: !ChainEnds(d', s.nodes[f].chain[0], m)
  {
    forall m: nat
      ensures !ChainEnds(d', s.nodes[f].chain[0], m)
    {
      InodeOffChain(d, f, inode, s.nodes[f].chain[0], m);
    }
  }

  // A write that did not lose its chain had enough blocks.
  lemma WrittenFits(d0: Image, s: Shape, f: nat, data: seq<byte>, d: Image, n: Node)
    requires f in s.nodes && s.nodes[f].FileN? && Written(d0, s, f, data, d, n)
    ensures Extra(Tree.File([], [], |s.nodes[f].chain|), |data|) <= FreeCount(d0)
  {
  }

  // The walk along a chain never looks at an inode block.
  lemma {:induction false} InodeOffChain(d: Image, f: nat, inode: Block, c: nat, m: nat)
    requires f < MAX_BLOCK && d[f].Inode? && inode.Inode?
    ensures ChainEnds(d[f := inode], c, m) ==> ChainEnds(d, c, m)
    decreases m
  {
    if m > 0 && c < MAX_BLOCK && d[c].Data? {
      InodeOffChain(d, f, inode, d[c].next, m - 1);
    }
  }

  // The chain has no end; nothing but the file's own blocks and blocks that were free has changed;
  // its inode has the new size.
  ghost predicate Broken(d0: Image, s: Shape, f: nat, size: nat, d': Image) {
    f in s.nodes && s.nodes[f].FileN? && f < MAX_BLOCK && Untouched(d0, d', [f] + s.nodes[f].chain)
    && s.nodes[f].chain != [] && (forall m :: !ChainEnds(d', s.nodes[f].chain[0], m))
    && d0[f].Inode? && d'[f].Inode? && d'[f] == d0[f].(size := d'[f].size) && d'[f].size == size
  }

  // What fs_write leaves: the new contents, or with too few free blocks a chain without an end.
  ghost predicate WriteResult(d0: Image, s: Shape, ip: seq<nat>, data: seq<byte>, d': Image, s': Shape)
    requires TreeOk(s) && ValidPath(AbsRoot(s), ip) && Get(AbsRoot(s), ip).File?
  {
    var t, f := Get(AbsRoot(s), ip), NodeAt(s, s.root, ip);
    var extra := Extra(t, |data|);
    if extra > FreeCount(d0) then Broken(d0, s, f, |data|, d')
    else WF(d', s') && StateOf(d', s') == FsState(Put(AbsRoot(s), ip, Tree.File(t.name, data, t.blocks + extra)),
                                                  FreeCount(d0) - extra, |Leaked(d0, s)|)
  }

  // It is the abstract step's outcome.
  lemma WriteAnswers(d0: Image, s: Shape, path: text, ip: seq<nat>, data: seq<byte>, d': Image, s': Shape)
    requires WF(d0, s) && Resolve(AbsRoot(s), Components(path)) == Some(ip) && Get(AbsRoot(s), ip).File?
    requires WriteResult(d0, s, ip, data, d', s')
    ensures match Write(StateOf(d0, s), path, data)
            case Done(st, code) => WF(d', s') && StateOf(d', s') == st && code == 0
            case Corrupt => Broken(d0, s, NodeAt(s, s.root, ip), |data|, d')
            case Fault => false
  {
  }

  lemma WriteDone(d0: Image, s: Shape, ip: seq<nat>, f: nat, data: seq<byte>, d: Image, n: Node, lost: bool,
                  inode: Block, d': Image)
    requires WF(d0, s) && ValidPath(AbsRoot(s), ip) && NodeAt(s, s.root, ip) == f && s.nodes[f].FileN?
    requires f < MAX_BLOCK && d0[f].Inode? && inode.Inode? && inode.size == |data|
    requires inode == d0[f].(size := inode.size)
    requires InodeIs(d0[f], f, s.nodes[f]) && d' == d[f := inode]
    requires if lost then Lost(d0, s, f, data, d) else Written(d0, s, f, data, d, n)
    ensures s.nodes[f].chain != []
    ensures WriteResult(d0, s, ip, data, d', if lost then s else Rewrite(s, f, n))
  {
    assert Get(AbsRoot(s), ip) == Abs(s, f);
    ExtraBlocks(Get(AbsRoot(s), ip), |s.nodes[f].chain|, |data|);
    assert Parts(s.nodes[f])[0] == s.nodes[f].chain[0];
    if lost {
      StillLost(d0, s, f, data, d, inode, d');
    } else {
      WrittenOk(d0, s, f, data, d, n, ip, inode);
      WrittenFits(d0, s, f, data, d, n);
    }
  }

  lemma ExtraBlocks(t: Tree, blocks: nat, size: nat)
    requires t.File? && t.blocks == blocks
    ensures Extra(t, size) == Extra(Tree.File([], [], blocks), size)
  {
  }
}
