// Changing the bytes of a file: its chain may gain blocks at the end.

module ShapeFile {
  import opened Blocks
  import opened DirTree
  import opened Shapes

  function Rewritten(n: Node, chain: seq<nat>, chunks: seq<Chunk>, size: nat): Node
    requires n.FileN?
  {
    n.(chain := chain, chunks := chunks, size := size)
  }

  ghost function Rewrite(s: Shape, f: nat, n': Node): Shape
    requires f in s.nodes && n'.FileN?
  {
    Shape(s.nodes[f := n'], s.own + (map y | y in n'.chain :: f), s.root, s.bound)
  }

  // The new chain extends the old one by blocks nobody used.
  ghost predicate Extends(s: Shape, f: nat, chain: seq<nat>) {
    f in s.nodes && s.nodes[f].FileN? && s.nodes[f].chain <= chain && NoDup(chain)
    && forall i :: |s.nodes[f].chain| <= i < |chain| ==> 1 <= chain[i] < MAX_BLOCK && chain[i] !in s.own
  }

  lemma RewriteTree(s: Shape, f: nat, chain: seq<nat>, chunks: seq<Chunk>, size: nat)
    requires TreeOk(s) && Extends(s, f, chain)
    ensures TreeOk(Rewrite(s, f, Rewritten(s.nodes[f], chain, chunks, size)))
  {
    var s' := Rewrite(s, f, Rewritten(s.nodes[f], chain, chunks, size));
    forall a | a in s'.nodes
      ensures NodeTreeOk(s', a)
    {
      assert NodeTreeOk(s, a);
      var n := s.nodes[a];
      if n.DirN? {
        forall i | 0 <= i < |n.kids|
          ensures KidOk(s', a, n.kids[i])
        {
          assert KidOk(s, a, n.kids[i]);
        }
      }
    }
  }

  lemma RewriteOwn(s: Shape, f: nat, chain: seq<nat>, chunks: seq<Chunk>, size: nat)
    requires TreeOk(s) && OwnOk(s) && Extends(s, f, chain)
    ensures OwnOk(Rewrite(s, f, Rewritten(s.nodes[f], chain, chunks, size)))
  {
    var s' := Rewrite(s, f, Rewritten(s.nodes[f], chain, chunks, size));
    var old' := s.nodes[f].chain;
    assert NodeOwns(s, f);
    forall i | 0 <= i < |chain|
      ensures chain[i] in s'.own && s'.own[chain[i]] == f && 1 <= chain[i] < MAX_BLOCK
      ensures chain[i] in s.own ==> s.own[chain[i]] == f
    {
      if i < |old'| {
        assert Parts(s.nodes[f])[i] == chain[i];
        assert OwnerOk(s, chain[i]);
      }
    }
    forall y | y in s'.own
      ensures 1 <= y < MAX_BLOCK && OwnerOk(s', y)
    {
      if y in chain {
      } else {
        assert OwnerOk(s, y);
      }
    }
    forall a | a in s'.nodes
      ensures NodeOwns(s', a)
    {
      assert NodeOwns(s, a);
      if a != f {
        var p := Parts(s.nodes[a]);
        forall i | 0 <= i < |p|
          ensures p[i] in s'.own && s'.own[p[i]] == a
        {
          assert s.own[p[i]] == a;
        }
      }
      assert a in chain ==> s.own[a] == f;
    }
  }

  // Every block of the new chain was unused or part of the file.
  lemma ChainOwned(s: Shape, f: nat, n': Node)
    requires OwnOk(s) && n'.FileN? && Extends(s, f, n'.chain)
    ensures forall y :: y in n'.chain ==> 1 <= y < MAX_BLOCK && (y in s.own ==> s.own[y] == f)
  {
    var n := s.nodes[f];
    assert NodeOwns(s, f);
    forall i | 0 <= i < |n'.chain|
      ensures 1 <= n'.chain[i] < MAX_BLOCK && (n'.chain[i] in s.own ==> s.own[n'.chain[i]] == f)
    {
      if i < |n.chain| {
        assert Parts(n)[i] == n'.chain[i];
        assert OwnerOk(s, Parts(n)[i]);
      }
    }
  }

  lemma RewriteDisk(d: Image, d': Image, s: Shape, f: nat, n': Node)
    requires WF(d, s) && n'.FileN? && Extends(s, f, n'.chain)
    requires NodeOk(d', f, n')
    requires forall y :: 0 <= y < MAX_BLOCK && y != f && y !in n'.chain ==> d'[y] == d[y]
    ensures DiskOk(d', Rewrite(s, f, n'))
  {
    var s' := Rewrite(s, f, n');
    ChainOwned(s, f, n');
    assert NodeOwns(s, f);
    assert OwnerOk(s, f);
    assert d'[0] == d[0];
    forall a | a in s'.nodes
      ensures NodeOk(d', a, s'.nodes[a])
    {
      if a != f {
        assert NodeOwns(s, a) && NodeOk(d, a, s.nodes[a]);
        NodeKept(d, d', s, a);
      }
    }
  }

  // The whole step: blocks outside the chain and the inode keep their contents.
  lemma RewriteOk(d: Image, d': Image, s: Shape, f: nat, ip: seq<nat>, n': Node)
    requires WF(d, s) && ValidPath(AbsRoot(s), ip) && NodeAt(s, s.root, ip) == f
    requires n'.FileN? && Extends(s, f, n'.chain) && n' == Rewritten(s.nodes[f], n'.chain, n'.chunks, n'.size)
    requires forall i :: |s.nodes[f].chain| <= i < |n'.chain| ==> d[n'.chain[i]].Free?
    requires NodeOk(d', f, n')
    requires forall y :: 0 <= y < MAX_BLOCK && y != f && y !in n'.chain ==> d'[y] == d[y]
    ensures var s' := Rewrite(s, f, n');
            WF(d', s') && Leaked(d', s') == Leaked(d, s)
            && AbsRoot(s') == Put(AbsRoot(s), ip, Tree.File(n'.name, Content(n'), |n'.chain|))
  {
    var s' := Rewrite(s, f, n');
    RewriteTree(s, f, n'.chain, n'.chunks, n'.size);
    RewriteOwn(s, f, n'.chain, n'.chunks, n'.size);
    RewriteDisk(d, d', s, f, n');
    AbsPut(s, s', f, f, s.root, ip);
    RewriteLeaks(d, d', s, f, n');
  }

  lemma RewriteLeaks(d: Image, d': Image, s: Shape, f: nat, n': Node)
    requires WF(d, s) && n'.FileN? && Extends(s, f, n'.chain)
    requires forall i :: |s.nodes[f].chain| <= i < |n'.chain| ==> d[n'.chain[i]].Free?
    requires forall y :: 0 <= y < MAX_BLOCK && y != f && y !in n'.chain ==> d'[y] == d[y]
    ensures Leaked(d', Rewrite(s, f, n')) == Leaked(d, s)
  {
    var n := s.nodes[f];
    assert NodeOwns(s, f);
    forall y | 1 <= y < MAX_BLOCK
      ensures y in Leaked(d', Rewrite(s, f, n')) <==> y in Leaked(d, s)
    {
      if y in n'.chain {
        var i :| 0 <= i < |n'.chain| && n'.chain[i] == y;
        if i < |n.chain| { assert Parts(n)[i] in s.own; }
      }
    }
  }
}
