// Adding an entry at the end of a directory: the old sentinel becomes the entry's cell and a new
// sentinel follows it.

module ShapeGrow {
  import opened Blocks
  import opened DirTree
  import opened Shapes

  function GrownDir(n: Node, x: nat, c: nat): Node
    requires n.DirN?
  {
    n.(cells := n.cells + [c], kids := n.kids + [x])
  }

  // The leaf node at inode block x with first block b, and the new sentinel at c.
  ghost function Grow(s: Shape, dir: nat, x: nat, b: nat, c: nat, leaf: Node): Shape
    requires dir in s.nodes && s.nodes[dir].DirN?
  {
    Shape(s.nodes[dir := GrownDir(s.nodes[dir], x, c)][x := leaf],
          s.own[x := x][b := x][c := dir],
          s.root,
          if leaf.depth > s.bound then leaf.depth else s.bound)
  }

  function NewLeaf(isDir: bool, name: Name, dir: nat, depth: nat, b: nat): Node {
    if isDir then DirN(name, dir, depth, [b], []) else FileN(name, dir, depth, [b], [ZeroChunk()], 0)
  }

  // Three different blocks nobody uses.
  ghost predicate Fresh3(s: Shape, x: nat, b: nat, c: nat) {
    1 <= x < MAX_BLOCK && 1 <= b < MAX_BLOCK && 1 <= c < MAX_BLOCK
    && x != b && x != c && b != c && x !in s.own && b !in s.own && c !in s.own
  }

  lemma GrowTree(s: Shape, dir: nat, x: nat, b: nat, c: nat, isDir: bool, name: Name)
    requires TreeOk(s) && OwnOk(s) && Fresh3(s, x, b, c) && dir in s.nodes && s.nodes[dir].DirN?
    ensures TreeOk(Grow(s, dir, x, b, c, NewLeaf(isDir, name, dir, s.nodes[dir].depth + 1, b)))
  {
    var leaf := NewLeaf(isDir, name, dir, s.nodes[dir].depth + 1, b);
    var s' := Grow(s, dir, x, b, c, leaf);
    assert x in s.nodes ==> NodeOwns(s, x);
    forall a | a in s'.nodes
      ensures NodeTreeOk(s', a)
    {
      if a == x {
        var k := s'.nodes[dir].kids;
        assert k[|k| - 1] == x;
      } else {
        assert NodeTreeOk(s, a);
        GrowKids(s, dir, x, b, c, leaf, a);
        if a != s.root { GrowParent(s, dir, x, b, c, leaf, a); }
      }
    }
  }

  lemma GrowKids(s: Shape, dir: nat, x: nat, b: nat, c: nat, leaf: Node, a: nat)
    requires TreeOk(s) && x !in s.nodes && dir in s.nodes && s.nodes[dir].DirN? && a in s.nodes
    requires leaf.parent == dir && leaf.depth == s.nodes[dir].depth + 1 && NodeTreeOk(s, a)
    ensures var n := Grow(s, dir, x, b, c, leaf).nodes[a];
            n.DirN? ==>
              NoDup(n.kids) && forall i :: 0 <= i < |n.kids| ==> KidOk(Grow(s, dir, x, b, c, leaf), a, n.kids[i])
  {
    var s' := Grow(s, dir, x, b, c, leaf);
    var n, n' := s.nodes[a], s'.nodes[a];
    if n.DirN? {
      forall i | 0 <= i < |n'.kids|
        ensures KidOk(s', a, n'.kids[i]) && (i < |n.kids| ==> n'.kids[i] == n.kids[i] != x)
      {
        if i < |n.kids| { assert KidOk(s, a, n.kids[i]); }
      }
    }
  }

  lemma GrowParent(s: Shape, dir: nat, x: nat, b: nat, c: nat, leaf: Node, a: nat)
    requires TreeOk(s) && x !in s.nodes && dir in s.nodes && s.nodes[dir].DirN?
    requires a in s.nodes && a != s.root && NodeTreeOk(s, a)
    ensures var s' := Grow(s, dir, x, b, c, leaf); var p := s.nodes[a].parent;
            p in s'.nodes && s'.nodes[p].DirN? && a in s'.nodes[p].kids
  {
  }

  lemma GrowOwn(s: Shape, dir: nat, x: nat, b: nat, c: nat, isDir: bool, name: Name)
    requires TreeOk(s) && OwnOk(s) && Fresh3(s, x, b, c) && dir in s.nodes && s.nodes[dir].DirN?
    ensures OwnOk(Grow(s, dir, x, b, c, NewLeaf(isDir, name, dir, s.nodes[dir].depth + 1, b)))
  {
    var leaf := NewLeaf(isDir, name, dir, s.nodes[dir].depth + 1, b);
    var s' := Grow(s, dir, x, b, c, leaf);
    assert x in s.nodes ==> NodeOwns(s, x);
    forall y | y in s'.own
      ensures 1 <= y < MAX_BLOCK && OwnerOk(s', y)
    {
      if y == b {
        assert Parts(leaf)[0] == b;
      } else if y == c {
        var cells := s'.nodes[dir].cells;
        assert cells[|cells| - 1] == c;
      } else if y != x {
        assert OwnerOk(s, y);
        var a := s.own[y];
        if y != a && a == dir {
          var p := Parts(s.nodes[a]);
          var i :| 0 <= i < |p| && p[i] == y;
          assert Parts(s'.nodes[a])[i] == y;
        }
      }
    }
    forall a | a in s'.nodes
      ensures NodeOwns(s', a)
    {
      if a != x {
        assert NodeOwns(s, a);
        var p, p' := Parts(s.nodes[a]), Parts(s'.nodes[a]);
        forall i | 0 <= i < |p'|
          ensures p'[i] in s'.own && s'.own[p'[i]] == a
        {
          if i < |p| { assert p[i] in s.own && s.own[p[i]] == a; }
        }
        assert forall i :: 0 <= i < |p| ==> p[i] in s.own;
      }
    }
  }

  ghost predicate Linked(d: Image, d': Image, end: nat, x: nat, b: nat, c: nat) {
    end < MAX_BLOCK && x < MAX_BLOCK && b < MAX_BLOCK && c < MAX_BLOCK
    && d'[end] == Cell(false, end, x, c) && d'[c] == Cell(true, c, 0, 0)
    && forall y :: 0 <= y < MAX_BLOCK && y != end && y != x && y != b && y != c ==> d'[y] == d[y]
  }

  // What the disk must hold after the four writes.
  ghost predicate Grown(d: Image, d': Image, s: Shape, dir: nat, x: nat, b: nat, c: nat, leaf: Node)
    requires dir in s.nodes && s.nodes[dir].DirN? && |s.nodes[dir].cells| == |s.nodes[dir].kids| + 1
  {
    Linked(d, d', s.nodes[dir].cells[|s.nodes[dir].kids|], x, b, c) && NodeOk(d', x, leaf)
  }

  lemma GrowDisk(d: Image, d': Image, s: Shape, dir: nat, x: nat, b: nat, c: nat, isDir: bool, name: Name)
    requires WF(d, s) && Fresh3(s, x, b, c) && dir in s.nodes && s.nodes[dir].DirN?
    requires NodeTreeOk(s, dir)
    requires var leaf := NewLeaf(isDir, name, dir, s.nodes[dir].depth + 1, b);
             Grown(d, d', s, dir, x, b, c, leaf)
    ensures DiskOk(d', Grow(s, dir, x, b, c, NewLeaf(isDir, name, dir, s.nodes[dir].depth + 1, b)))
  {
    var leaf := NewLeaf(isDir, name, dir, s.nodes[dir].depth + 1, b);
    var s' := Grow(s, dir, x, b, c, leaf);
    var n := s.nodes[dir];
    var end := n.cells[|n.kids|];
    assert NodeOwns(s, dir) && NodeOk(d, dir, n);
    assert s.own[Parts(n)[|n.kids|]] == dir;
    assert OwnerOk(s, end) && CellIs(d[n.cells[|n.kids|]], n, |n.kids|);
    assert d'[0] == d[0];
    forall a | a in s'.nodes
      ensures NodeOk(d', a, s'.nodes[a])
    {
      if a != x {
        assert NodeOwns(s, a) && NodeOk(d, a, s.nodes[a]);
        if a == dir {
          GrownDirOk(d, d', n, dir, x, b, c);
        } else {
          NodeKept(d, d', s, a);
        }
      }
    }
  }

  lemma GrownDirOk(d: Image, d': Image, n: Node, dir: nat, x: nat, b: nat, c: nat)
    requires n.DirN? && NodeOk(d, dir, n) && NoDup(n.cells) && c < MAX_BLOCK
    requires var end := n.cells[|n.kids|];
             x < MAX_BLOCK && end < MAX_BLOCK
             && d'[end] == Cell(false, end, x, c) && d'[c] == Cell(true, c, 0, 0) && d'[dir] == d[dir]
             && forall i :: 0 <= i < |n.kids| ==> d'[n.cells[i]] == d[n.cells[i]]
    ensures NodeOk(d', dir, GrownDir(n, x, c))
  {
    var n' := GrownDir(n, x, c);
    forall i | 0 <= i < |n'.cells|
      ensures n'.cells[i] < MAX_BLOCK && CellIs(d'[n'.cells[i]], n', i)
    {
      if i < |n.kids| {
        assert CellIs(d[n.cells[i]], n, i);
      } else if i == |n.kids| {
        assert n'.cells[i] == n.cells[i] && n'.cells[i + 1] == c;
        assert Parts(n)[i] < MAX_BLOCK;
      }
    }
    assert Parts(n')[0] == Parts(n)[0];
  }

  lemma {:induction false} GrowAbs(s: Shape, s': Shape, dir: nat, x: nat, ip: seq<nat>, b: nat, c: nat, leaf: Node)
    requires TreeOk(s) && TreeOk(s') && dir in s.nodes && s.nodes[dir].DirN?
    requires s' == Grow(s, dir, x, b, c, leaf)
    requires x !in s.nodes && ValidPath(AbsRoot(s), ip) && NodeAt(s, s.root, ip) == dir
    ensures var t := Get(AbsRoot(s), ip);
            AbsRoot(s') == Put(AbsRoot(s), ip, Dir(t.name, t.kids + [Abs(s', x)]))
  {
    AbsPut(s, s', dir, x, s.root, ip);
    var n, n' := s.nodes[dir], s'.nodes[dir];
    var t, t' := Abs(s, dir), Abs(s', dir);
    forall i | 0 <= i < |n'.kids|
      ensures t'.kids[i] == (t.kids + [Abs(s', x)])[i]
    {
      KidFacts(s', dir, i);
      if i < |n.kids| {
        KidFacts(s, dir, i);
        AbsElsewhere(s, s', dir, x, n.kids[i]);
      }
    }
    assert t'.kids == t.kids + [Abs(s', x)];
  }

  // The whole step.
  lemma GrowOk(d: Image, d': Image, s: Shape, dir: nat, ip: seq<nat>, x: nat, b: nat, c: nat,
               isDir: bool, name: Name)
    requires WF(d, s) && ValidPath(AbsRoot(s), ip) && NodeAt(s, s.root, ip) == dir && s.nodes[dir].DirN?
    requires Fresh3(s, x, b, c) && d[x].Free? && d[b].Free? && d[c].Free?
    requires NodeTreeOk(s, dir)
    requires var leaf := NewLeaf(isDir, name, dir, s.nodes[dir].depth + 1, b);
             Grown(d, d', s, dir, x, b, c, leaf) && !d'[b].Free?
    ensures var s' := Grow(s, dir, x, b, c, NewLeaf(isDir, name, dir, s.nodes[dir].depth + 1, b));
            WF(d', s') && Leaked(d', s') == Leaked(d, s)
            && var t := Get(AbsRoot(s), ip);
               AbsRoot(s') == Put(AbsRoot(s), ip,
                 Dir(t.name, t.kids + [if isDir then Tree.Dir(name, []) else Tree.File(name, [], 1)]))
  {
    var leaf := NewLeaf(isDir, name, dir, s.nodes[dir].depth + 1, b);
    var s' := Grow(s, dir, x, b, c, leaf);
    assert x in s.nodes ==> NodeOwns(s, x);
    GrowTree(s, dir, x, b, c, isDir, name);
    GrowOwn(s, dir, x, b, c, isDir, name);
    GrowDisk(d, d', s, dir, x, b, c, isDir, name);
    GrowAbs(s, s', dir, x, ip, b, c, leaf);
    assert Abs(s', x) == if isDir then Tree.Dir(name, []) else Tree.File(name, [], 1);
    GrowLeaks(d, d', s, dir, x, b, c, leaf);
  }

  lemma GrowLeaks(d: Image, d': Image, s: Shape, dir: nat, x: nat, b: nat, c: nat, leaf: Node)
    requires WF(d, s) && dir in s.nodes && s.nodes[dir].DirN? && NodeTreeOk(s, dir)
    requires Fresh3(s, x, b, c) && d[x].Free? && d[b].Free? && d[c].Free?
    requires Grown(d, d', s, dir, x, b, c, leaf)
    ensures Leaked(d', Grow(s, dir, x, b, c, leaf)) == Leaked(d, s)
  {
    var s' := Grow(s, dir, x, b, c, leaf);
    var n := s.nodes[dir];
    assert NodeOwns(s, dir);
    assert Parts(n)[|n.kids|] in s.own;
    forall y | 1 <= y < MAX_BLOCK
      ensures y in Leaked(d', s') <==> y in Leaked(d, s)
    {
    }
  }
}
