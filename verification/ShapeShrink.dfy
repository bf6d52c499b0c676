// Removing an entry from a directory: its cell is unlinked, whether it is the first or a later one.

module ShapeShrink {
  import opened Blocks
  import opened DirTree
  import opened FsSpec
  import opened Shapes

  function ShrunkDir(n: Node, j: nat): Node
    requires n.DirN? && |n.cells| == |n.kids| + 1 && j < |n.kids|
  {
    n.(cells := Without(n.cells, j), kids := Without(n.kids, j))
  }

  ghost predicate IsEntry(s: Shape, dir: nat, j: nat) {
    dir in s.nodes && s.nodes[dir].DirN? && |s.nodes[dir].cells| == |s.nodes[dir].kids| + 1
    && j < |s.nodes[dir].kids| && s.nodes[dir].kids[j] in s.nodes
    && s.nodes[dir].kids[j] != dir
  }

  // A file, or a directory with nothing in it.
  predicate Leaf(n: Node) {
    n.DirN? ==> n.kids == []
  }

  ghost function Gone(s: Shape, dir: nat, j: nat): set<nat>
    requires IsEntry(s, dir, j)
  {
    var x := s.nodes[dir].kids[j];
    {x, s.nodes[dir].cells[j]} + set y | y in Parts(s.nodes[x])
  }

  ghost function Shrink(s: Shape, dir: nat, j: nat): Shape
    requires IsEntry(s, dir, j)
  {
    var n := s.nodes[dir];
    Shape((s.nodes - {n.kids[j]})[dir := ShrunkDir(n, j)], s.own - Gone(s, dir, j), s.root, s.bound)
  }

  lemma EntryFacts(s: Shape, dir: nat, j: nat)
    requires TreeOk(s) && dir in s.nodes && s.nodes[dir].DirN? && j < |s.nodes[dir].kids|
    ensures IsEntry(s, dir, j) && KidOk(s, dir, s.nodes[dir].kids[j])
  {
    assert NodeTreeOk(s, dir);
    assert KidOk(s, dir, s.nodes[dir].kids[j]);
  }

  lemma ShrinkTree(s: Shape, dir: nat, j: nat)
    requires TreeOk(s) && IsEntry(s, dir, j) && Leaf(s.nodes[s.nodes[dir].kids[j]])
    ensures TreeOk(Shrink(s, dir, j))
  {
    var s' := Shrink(s, dir, j);
    EntryFacts(s, dir, j);
    forall a | a in s'.nodes
      ensures NodeTreeOk(s', a)
    {
      assert NodeTreeOk(s, a) && NodeTreeOk(s, dir);
      ShrinkKids(s, dir, j, a);
      if a != s.root { ShrinkParent(s, dir, j, a); }
    }
  }

  lemma ShrinkKids(s: Shape, dir: nat, j: nat, a: nat)
    requires TreeOk(s) && IsEntry(s, dir, j) && a in s.nodes && a != s.nodes[dir].kids[j]
    requires NodeTreeOk(s, a) && NodeTreeOk(s, dir)
    ensures var n := Shrink(s, dir, j).nodes[a];
            n.DirN? ==> forall i :: 0 <= i < |n.kids| ==> KidOk(Shrink(s, dir, j), a, n.kids[i])
  {
    var s' := Shrink(s, dir, j);
    var x := s.nodes[dir].kids[j];
    var n, n' := s.nodes[a], s'.nodes[a];
    assert KidOk(s, dir, x);
    if n.DirN? {
      forall i | 0 <= i < |n'.kids|
        ensures KidOk(s', a, n'.kids[i])
      {
        var i' := if a == dir && i >= j then i + 1 else i;
        assert n'.kids[i] == n.kids[i'];
        assert KidOk(s, a, n.kids[i']);
        assert a == dir ==> n.kids[i'] != n.kids[j];
      }
    }
  }

  lemma ShrinkParent(s: Shape, dir: nat, j: nat, a: nat)
    requires TreeOk(s) && IsEntry(s, dir, j) && Leaf(s.nodes[s.nodes[dir].kids[j]])
    requires a in s.nodes && a != s.root && a != s.nodes[dir].kids[j] && NodeTreeOk(s, a)
    ensures var s' := Shrink(s, dir, j); var p := s.nodes[a].parent;
            p in s'.nodes && s'.nodes[p].DirN? && a in s'.nodes[p].kids
  {
  }

  // The blocks given up belonged to the removed entry, but for its cell.
  lemma GoneOwned(s: Shape, dir: nat, j: nat)
    requires OwnOk(s) && IsEntry(s, dir, j)
    ensures var x, cell := s.nodes[dir].kids[j], s.nodes[dir].cells[j];
            cell in s.own && s.own[cell] == dir && x in s.own && s.own[x] == x
            && forall y :: y in Gone(s, dir, j) && y != cell ==> y in s.own && s.own[y] == x
  {
    var x := s.nodes[dir].kids[j];
    assert NodeOwns(s, x) && NodeOwns(s, dir);
    assert s.own[Parts(s.nodes[dir])[j]] == dir;
  }

  lemma ShrinkOwners(s: Shape, dir: nat, j: nat)
    requires OwnOk(s) && IsEntry(s, dir, j)
    ensures var s' := Shrink(s, dir, j);
            forall y :: y in s'.own ==> 1 <= y < MAX_BLOCK && OwnerOk(s', y)
  {
    var s' := Shrink(s, dir, j);
    var x := s.nodes[dir].kids[j];
    forall y | y in s'.own
      ensures 1 <= y < MAX_BLOCK && OwnerOk(s', y)
    {
      assert OwnerOk(s, y);
      var a := s.own[y];
      assert a != x;
      if y != a && a == dir {
        var p := s.nodes[a].cells;
        var i :| 0 <= i < |p| && p[i] == y;
        assert s'.nodes[a].cells[if i > j then i - 1 else i] == y;
      }
    }
  }

  lemma ShrinkOwn(s: Shape, dir: nat, j: nat)
    requires OwnOk(s) && IsEntry(s, dir, j) && dir !in s.nodes[dir].cells
    ensures OwnOk(Shrink(s, dir, j))
  {
    var s' := Shrink(s, dir, j);
    ShrinkOwners(s, dir, j);
    GoneOwned(s, dir, j);
    var cell := s.nodes[dir].cells[j];
    forall a | a in s'.nodes
      ensures NodeOwns(s', a)
    {
      assert NodeOwns(s, a);
      var p, p' := Parts(s.nodes[a]), Parts(s'.nodes[a]);
      assert a != cell by { assert s.own[a] == a; }
      forall i | 0 <= i < |p'|
        ensures p'[i] in s'.own && s'.own[p'[i]] == a
      {
        var i' := if a == dir && i >= j then i + 1 else i;
        assert p'[i] == p[i'] && s.own[p[i']] == a;
        if a == dir {
          assert i' != j && p[j] == cell;
        }
      }
    }
  }

  // What the disk must hold after the removal.  The chain of a removed file is freed; the sentinel
  // of a removed directory is not.
  ghost predicate Shrunk(d: Image, d': Image, s: Shape, dir: nat, j: nat)
    requires WF(d, s) && IsEntry(s, dir, j)
  {
    var n := s.nodes[dir];
    var leaf := s.nodes[n.kids[j]];
    Unlinked(d, d', dir, n, j)
    && (forall y :: y in Gone(s, dir, j) && y < MAX_BLOCK ==>
          if leaf.DirN? && y in leaf.cells then d'[y] == d[y] else d'[y].Free?)
    && (forall y :: 0 <= y < MAX_BLOCK && y !in Gone(s, dir, j) && y != Relinked(dir, n, j) ==> d'[y] == d[y])
  }

  // The block that pointed to the removed cell: the directory's inode or the cell before.
  function Relinked(dir: nat, n: Node, j: nat): nat
    requires n.DirN? && j < |n.cells|
  {
    if j == 0 then dir else n.cells[j - 1]
  }

  ghost predicate Unlinked(d: Image, d': Image, dir: nat, n: Node, j: nat)
    requires n.DirN? && |n.cells| == |n.kids| + 1 && j < |n.kids|
  {
    var y, next := Relinked(dir, n, j), n.cells[j + 1];
    y < MAX_BLOCK && next < MAX_BLOCK
    && (if j == 0 then d[y].Inode? && d'[y] == d[y].(start := next)
        else d[y].Cell? && d'[y] == Cell(d[y].last, d[y].addr, d[y].inode, next))
  }

  lemma ShrunkDirOk(d: Image, d': Image, n: Node, dir: nat, j: nat)
    requires n.DirN? && NodeOk(d, dir, n) && NoDup(n.cells) && j < |n.kids| && dir !in n.cells
    requires Unlinked(d, d', dir, n, j)
    requires j > 0 ==> d'[dir] == d[dir]
    requires forall i :: 0 <= i < |n.cells| && i != j && i + 1 != j ==> d'[n.cells[i]] == d[n.cells[i]]
    ensures NodeOk(d', dir, ShrunkDir(n, j))
  {
    var n' := ShrunkDir(n, j);
    forall i | 0 <= i < |n'.cells|
      ensures n'.cells[i] < MAX_BLOCK && CellIs(d'[n'.cells[i]], n', i)
    {
      var i' := if i >= j then i + 1 else i;
      assert n'.cells[i] == n.cells[i'] == Parts(n)[i'];
      assert CellIs(d[n.cells[i']], n, i');
      if i + 1 == j {
        assert n'.cells[i + 1] == n.cells[j + 1];
      }
    }
    assert InodeIs(d[dir], dir, n);
  }

  lemma ShrinkKeeps(d: Image, d': Image, s: Shape, dir: nat, j: nat)
    requires WF(d, s) && IsEntry(s, dir, j) && Shrunk(d, d', s, dir, j)
    ensures var x, cell, z := s.nodes[dir].kids[j], s.nodes[dir].cells[j], Relinked(dir, s.nodes[dir], j);
            z in s.own && s.own[z] == dir && 1 <= z < MAX_BLOCK
            && forall y :: 0 <= y < MAX_BLOCK && y != cell && y != z && (y in s.own ==> s.own[y] != x)
                 ==> d'[y] == d[y]
  {
    var n := s.nodes[dir];
    var z := Relinked(dir, n, j);
    GoneOwned(s, dir, j);
    assert NodeOwns(s, dir);
    assert j > 0 ==> s.own[Parts(n)[j - 1]] == dir;
    assert OwnerOk(s, z);
  }

  lemma ShrinkDir(d: Image, d': Image, s: Shape, dir: nat, j: nat)
    requires WF(d, s) && IsEntry(s, dir, j) && Shrunk(d, d', s, dir, j)
    requires dir !in s.nodes[dir].cells
    ensures NodeOk(d', dir, ShrunkDir(s.nodes[dir], j))
  {
    var n := s.nodes[dir];
    var z := Relinked(dir, n, j);
    ShrinkKeeps(d, d', s, dir, j);
    assert NodeOwns(s, dir) && NodeOk(d, dir, n);
    assert s.nodes[n.kids[j]] == s.nodes[n.kids[j]] && n.kids[j] != dir;
    forall i | 0 <= i < |n.cells| && i != j && i + 1 != j
      ensures d'[n.cells[i]] == d[n.cells[i]]
    {
      var y := Parts(n)[i];
      assert s.own[y] == dir && y < MAX_BLOCK;
      assert j > 0 ==> y != Parts(n)[j - 1];
      assert y != Parts(n)[j];
    }
    assert j > 0 ==> d'[dir] == d[dir] by {
      assert j > 0 ==> z == Parts(n)[j - 1] && Parts(n)[j] == n.cells[j];
    }
    ShrunkDirOk(d, d', n, dir, j);
  }

  lemma ShrinkDisk(d: Image, d': Image, s: Shape, dir: nat, j: nat)
    requires WF(d, s) && IsEntry(s, dir, j) && Shrunk(d, d', s, dir, j)
    requires dir !in s.nodes[dir].cells
    ensures DiskOk(d', Shrink(s, dir, j))
  {
    var s' := Shrink(s, dir, j);
    ShrinkDir(d, d', s, dir, j);
    ShrinkKeeps(d, d', s, dir, j);
    GoneOwned(s, dir, j);
    var cell := s.nodes[dir].cells[j];
    assert d'[0] == d[0] by {
      assert OwnerOk(s, cell);
      forall x | x in s.own ensures x != 0 { assert OwnerOk(s, x); }
    }
    forall a | a in s'.nodes && a != dir
      ensures NodeOk(d', a, s'.nodes[a])
    {
      ShrinkOther(d, d', s, dir, j, a);
    }
  }

  lemma ShrinkOther(d: Image, d': Image, s: Shape, dir: nat, j: nat, a: nat)
    requires WF(d, s) && IsEntry(s, dir, j) && Shrunk(d, d', s, dir, j)
    requires a in s.nodes && a != dir && a != s.nodes[dir].kids[j]
    ensures NodeOk(d', a, s.nodes[a])
  {
    ShrinkKeeps(d, d', s, dir, j);
    GoneOwned(s, dir, j);
    assert NodeOwns(s, a) && NodeOk(d, a, s.nodes[a]);
    NodeKept(d, d', s, a);
  }

  // No inode block is part of its own list or chain.
  lemma InodesApart(d: Image, s: Shape)
    requires WF(d, s)
    ensures forall a :: a in s.nodes ==> a !in Parts(s.nodes[a])
  {
    forall a | a in s.nodes
      ensures a !in Parts(s.nodes[a])
    {
      var n := s.nodes[a];
      assert NodeOk(d, a, n);
      forall i | 0 <= i < |Parts(n)|
        ensures Parts(n)[i] != a
      {
        assert n.DirN? ==> CellIs(d[n.cells[i]], n, i);
        assert n.FileN? ==> DataIs(d[n.chain[i]], n, i);
      }
    }
  }

  lemma ShrinkAbs(s: Shape, s': Shape, dir: nat, j: nat)
    requires TreeOk(s) && TreeOk(s') && IsEntry(s, dir, j) && s' == Shrink(s, dir, j)
    requires OnlyAt(s, s', dir, s.nodes[dir].kids[j])
    ensures Abs(s', dir) == Dir(Abs(s, dir).name, Without(Abs(s, dir).kids, j))
  {
    var x := s.nodes[dir].kids[j];
    var n, n' := s.nodes[dir], s'.nodes[dir];
    var t, t' := Abs(s, dir), Abs(s', dir);
    assert NodeTreeOk(s, dir);
    forall i | 0 <= i < |n'.kids|
      ensures t'.kids[i] == Without(t.kids, j)[i]
    {
      var i' := if i >= j then i + 1 else i;
      KidFacts(s', dir, i);
      KidFacts(s, dir, i');
      AbsElsewhere(s, s', dir, x, n.kids[i']);
    }
    assert t'.kids == Without(t.kids, j);
  }

  lemma ShrinkRoot(s: Shape, s': Shape, dir: nat, j: nat, ip: seq<nat>)
    requires TreeOk(s) && TreeOk(s') && IsEntry(s, dir, j) && s' == Shrink(s, dir, j)
    requires ValidPath(AbsRoot(s), ip) && NodeAt(s, s.root, ip) == dir
    ensures ValidPath(AbsRoot(s), ip + [j]) && AbsRoot(s') == Drop(AbsRoot(s), ip + [j])
  {
    EntryFacts(s, dir, j);
    ShrinkAbs(s, s', dir, j);
    AbsPut(s, s', dir, s.nodes[dir].kids[j], s.root, ip);
    DropIs(AbsRoot(s), ip, j);
  }

  lemma DropIs(t: Tree, ip: seq<nat>, j: nat)
    requires ValidPath(t, ip) && Get(t, ip).Dir? && j < |Get(t, ip).kids|
    ensures ValidPath(t, ip + [j])
    ensures Drop(t, ip + [j]) == Put(t, ip, Dir(Get(t, ip).name, Without(Get(t, ip).kids, j)))
  {
    assert [j][1..] == [];
    assert ValidPath(Get(t, ip), [j]);
    PathConcat(t, ip, [j]);
    assert (ip + [j])[..|ip + [j]| - 1] == ip;
  }

  ghost function NewLeaks(leaf: Node): set<nat> {
    if leaf.DirN? then set y | y in leaf.cells else {}
  }

  // The whole step.
  lemma ShrinkOk(d: Image, d': Image, s: Shape, dir: nat, j: nat, ip: seq<nat>)
    requires WF(d, s) && IsEntry(s, dir, j) && Leaf(s.nodes[s.nodes[dir].kids[j]])
    requires ValidPath(AbsRoot(s), ip) && NodeAt(s, s.root, ip) == dir
    requires Shrunk(d, d', s, dir, j)
    ensures var s' := Shrink(s, dir, j);
            WF(d', s')
            && Leaked(d', s') == Leaked(d, s) + NewLeaks(s.nodes[s.nodes[dir].kids[j]])
            && ValidPath(AbsRoot(s), ip + [j]) && AbsRoot(s') == Drop(AbsRoot(s), ip + [j])
  {
    var s' := Shrink(s, dir, j);
    InodesApart(d, s);
    ShrinkTree(s, dir, j);
    ShrinkOwn(s, dir, j);
    ShrinkDisk(d, d', s, dir, j);
    ShrinkRoot(s, s', dir, j, ip);
    ShrinkLeaks(d, d', s, dir, j);
  }

  lemma ShrinkLeaks(d: Image, d': Image, s: Shape, dir: nat, j: nat)
    requires WF(d, s) && IsEntry(s, dir, j) && Shrunk(d, d', s, dir, j)
    ensures Leaked(d', Shrink(s, dir, j)) == Leaked(d, s) + NewLeaks(s.nodes[s.nodes[dir].kids[j]])
  {
    var leaf := s.nodes[s.nodes[dir].kids[j]];
    ghost var before, after := Leaked(d, s), Leaked(d', Shrink(s, dir, j));
    forall y | 1 <= y < MAX_BLOCK
      ensures y in after <==> y in before || y in NewLeaks(leaf)
    {
      LeakAt(d, d', s, dir, j, y);
    }
    assert NewLeaks(leaf) <= after by {
      forall y | y in NewLeaks(leaf) ensures 1 <= y < MAX_BLOCK {
        GoneOwned(s, dir, j);
        CellNotGoneTwice(s, dir, j);
        InUse(d, s, y);
      }
    }
  }

  lemma LeakAt(d: Image, d': Image, s: Shape, dir: nat, j: nat, y: nat)
    requires WF(d, s) && IsEntry(s, dir, j) && Shrunk(d, d', s, dir, j) && 1 <= y < MAX_BLOCK
    ensures y in Leaked(d', Shrink(s, dir, j))
       <==> y in Leaked(d, s) || y in NewLeaks(s.nodes[s.nodes[dir].kids[j]])
  {
    GoneOwned(s, dir, j);
    ShrinkKeeps(d, d', s, dir, j);
    CellNotGoneTwice(s, dir, j);
    if y in s.own { InUse(d, s, y); }
  }

  lemma CellNotGoneTwice(s: Shape, dir: nat, j: nat)
    requires OwnOk(s) && IsEntry(s, dir, j)
    ensures s.nodes[dir].cells[j] !in Parts(s.nodes[s.nodes[dir].kids[j]])
  {
    var x := s.nodes[dir].kids[j];
    GoneOwned(s, dir, j);
    assert NodeOwns(s, x);
  }
}
