// Facts about lists and chains on the disk that the loops of fs.c rely on.

module FsLists {
  import opened Blocks
  import opened Shapes

  // Overwriting a block nobody uses keeps the file system as it is.
  lemma UnusedWrite(d: Image, s: Shape, y: nat, b: Block)
    requires WF(d, s) && 1 <= y < MAX_BLOCK && y !in s.own
    ensures WF(d[y := b], s)
  {
    forall a | a in s.nodes
      ensures NodeOk(d[y := b], a, s.nodes[a])
    {
      assert NodeOk(d, a, s.nodes[a]) && NodeOwns(s, a);
      NodeKept(d, d[y := b], s, a);
    }
  }

  // Claiming a free block leaks it until somebody uses it.
  lemma ClaimLeaks(d: Image, s: Shape, y: nat, b: Block)
    requires WF(d, s) && 1 <= y < MAX_BLOCK && d[y].Free? && !b.Free?
    ensures y !in s.own && WF(d[y := b], s)
    ensures |Leaked(d[y := b], s)| == |Leaked(d, s)| + 1
  {
    if y in s.own { InUse(d, s, y); assert false; }
    UnusedWrite(d, s, y, b);
    assert Leaked(d[y := b], s) == Leaked(d, s) + {y};
  }

  lemma NodeFacts(d: Image, s: Shape, a: nat)
    requires WF(d, s) && a in s.nodes
    ensures NodeOk(d, a, s.nodes[a]) && NodeOwns(s, a) && NodeTreeOk(s, a)
    ensures 1 <= a < MAX_BLOCK && d[a].Inode? && a !in Parts(s.nodes[a])
  {
    assert NodeOk(d, a, s.nodes[a]) && NodeOwns(s, a) && NodeTreeOk(s, a);
    assert OwnerOk(s, a);
    var n := s.nodes[a];
    forall i | 0 <= i < |Parts(n)|
      ensures Parts(n)[i] != a
    {
      assert n.DirN? ==> CellIs(d[n.cells[i]], n, i);
      assert n.FileN? ==> DataIs(d[n.chain[i]], n, i);
    }
  }

  lemma PartInUse(d: Image, s: Shape, a: nat, i: nat)
    requires WF(d, s) && a in s.nodes && i < |Parts(s.nodes[a])|
    ensures var y := Parts(s.nodes[a])[i];
            y in s.own && s.own[y] == a && 1 <= y < MAX_BLOCK && !d[y].Free?
  {
    assert NodeOwns(s, a);
    InUse(d, s, Parts(s.nodes[a])[i]);
  }

  // Block i of a file's chain, as the loops over it see it.
  lemma ChainAt(d: Image, s: Shape, f: nat, i: nat)
    requires WF(d, s) && f in s.nodes && s.nodes[f].FileN? && i < |s.nodes[f].chain|
    ensures var n := s.nodes[f];
            1 <= n.chain[i] < MAX_BLOCK && |n.chunks| == |n.chain| && n.size <= DATA_SIZE * |n.chain|
            && DataIs(d[n.chain[i]], n, i) && n.chain[i] !in n.chain[..i]
            && (i + 1 < |n.chain| ==> n.chain[i + 1] != 0)
  {
    var n := s.nodes[f];
    assert NodeOk(d, f, n) && NodeOwns(s, f);
    PartInUse(d, s, f, i);
    assert DataIs(d[n.chain[i]], n, i);
    assert NoDup(Parts(n));
    if i + 1 < |n.chain| { PartInUse(d, s, f, i + 1); }
  }

  // ---------- Walks that the loops of fs.c make ----------

  // Following `next` from cell c meets a sentinel within n steps, on the disk all along.
  ghost predicate ListEnds(d: Image, c: nat, n: nat)
    decreases n
  {
    c < MAX_BLOCK && d[c].Cell? && (d[c].last || (n > 0 && ListEnds(d, d[c].next, n - 1)))
  }

  // Following `next` from block c meets the end of the chain within n steps.
  ghost predicate ChainEnds(d: Image, c: nat, n: nat)
    decreases n
  {
    c < MAX_BLOCK && d[c].Data? && (d[c].next == 0 || (n > 0 && ChainEnds(d, d[c].next, n - 1)))
  }

  lemma {:induction false} ListOfDirEnds(d: Image, a: nat, n: Node, i: nat)
    requires n.DirN? && NodeOk(d, a, n) && i < |n.cells|
    ensures ListEnds(d, n.cells[i], |n.cells| - 1 - i)
    decreases |n.cells| - i
  {
    var c := n.cells[i];
    assert CellIs(d[c], n, i) && Parts(n)[i] == c < MAX_BLOCK;
    if i < |n.kids| {
      ListOfDirEnds(d, a, n, i + 1);
    }
  }

  lemma {:induction false} ChainOfFileEnds(d: Image, a: nat, n: Node, i: nat)
    requires n.FileN? && NodeOk(d, a, n) && i < |n.chain|
    ensures ChainEnds(d, n.chain[i], |n.chain| - 1 - i)
    decreases |n.chain| - i
  {
    var c := n.chain[i];
    assert Parts(n)[i] == c < MAX_BLOCK;
    assert DataIs(d[c], n, i);
    if i + 1 < |n.chain| {
      var m := |n.chain| - 2 - i;
      ChainOfFileEnds(d, a, n, i + 1);
      assert d[c].next == n.chain[i + 1] && ChainEnds(d, d[c].next, m);
    }
  }

  function Successor(parts: seq<nat>, k: nat): nat {
    if k + 1 < |parts| then parts[k + 1] else MAX_BLOCK
  }

  // The cells are linked in order, and the last one points past the end of the disk.
  ghost predicate CellsOverrun(d: Image, cells: seq<nat>) {
    forall k :: 0 <= k < |cells| ==> CellOverrun(d, cells[k], Successor(cells, k))
  }

  ghost predicate CellOverrun(d: Image, c: nat, next: nat) {
    c < MAX_BLOCK && d[c].Cell? && !d[c].last && d[c].next == next
  }

  ghost predicate ChainOverrun(d: Image, chain: seq<nat>) {
    forall k :: 0 <= k < |chain| ==> DataOverrun(d, chain[k], Successor(chain, k))
  }

  ghost predicate DataOverrun(d: Image, c: nat, next: nat) {
    0 < c < MAX_BLOCK && d[c].Data? && d[c].next == next
  }

  // Such a list has no end.
  lemma {:induction false} OverrunList(d: Image, cells: seq<nat>, i: nat, n: nat)
    requires i < |cells| && CellsOverrun(d, cells)
    ensures !ListEnds(d, cells[i], n)
    decreases |cells| - i
  {
    assert CellOverrun(d, cells[i], Successor(cells, i));
    if i + 1 < |cells| && n > 0 {
      OverrunList(d, cells, i + 1, n - 1);
    }
  }

  lemma {:induction false} OverrunChain(d: Image, chain: seq<nat>, i: nat, n: nat)
    requires i < |chain| && ChainOverrun(d, chain)
    ensures !ChainEnds(d, chain[i], n)
    decreases |chain| - i
  {
    assert DataOverrun(d, chain[i], Successor(chain, i));
    if i + 1 < |chain| && n > 0 {
      assert DataOverrun(d, chain[i + 1], Successor(chain, i + 1));
      OverrunChain(d, chain, i + 1, n - 1);
    }
  }

  // ---------- Contents of a chain ----------

  // Byte k of a chain lies in chunk k / DATA_SIZE.
  lemma {:induction false} FlattenPrefix(chunks: seq<Chunk>, m: nat)
    requires m <= |chunks|
    ensures Flatten(chunks[..m]) == Flatten(chunks)[..DATA_SIZE * m]
    decreases |chunks|
  {
    if m == |chunks| {
      assert chunks[..m] == chunks;
    } else {
      var front := chunks[..|chunks| - 1];
      FlattenPrefix(front, m);
      assert front[..m] == chunks[..m];
      assert Flatten(chunks)[..DATA_SIZE * m] == Flatten(front)[..DATA_SIZE * m];
    }
  }

  // Chunk m, cut to k bytes, follows the m chunks before it.
  lemma FlattenNext(chunks: seq<Chunk>, m: nat, k: nat)
    requires m < |chunks| && k <= DATA_SIZE
    ensures Flatten(chunks)[..DATA_SIZE * m + k] == Flatten(chunks)[..DATA_SIZE * m] + chunks[m][..k]
  {
    FlattenPrefix(chunks, m);
    FlattenPrefix(chunks, m + 1);
    var c := chunks[..m + 1];
    assert c[..|c| - 1] == chunks[..m];
    assert Flatten(c) == Flatten(chunks[..m]) + chunks[m];
    var whole := Flatten(chunks);
    assert whole[..DATA_SIZE * m + k] == whole[..DATA_SIZE * (m + 1)][..DATA_SIZE * m + k];
  }

  // Reading the front of the chunks is reading the front of the file.
  lemma ReadPrefix(n: Node, k: nat)
    requires n.FileN? && |n.chunks| == |n.chain| && n.size <= DATA_SIZE * |n.chain| && k <= n.size
    ensures |Content(n)| == n.size
    ensures forall j :: 0 <= j < k ==> Flatten(n.chunks)[j] == Content(n)[j]
  {
  }

  // Where the bytes of chunk i lie.
  lemma FlattenAt(chunks: seq<Chunk>, i: nat)
    requires i < |chunks|
    ensures forall j :: 0 <= j < DATA_SIZE ==> Flatten(chunks)[DATA_SIZE * i + j] == chunks[i][j]
  {
  }
}
