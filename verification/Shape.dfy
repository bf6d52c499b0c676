// How a directory tree lies on the disk.  A shape is the ghost bookkeeping of one disk image:
// a node per inode, with the blocks of its list or chain in order, and the owner of every block
// in use.  Well-formedness is a set of local conditions; the abstract tree is computed from it.

module Shapes {
  import opened CString
  import opened Blocks
  import opened DirTree
  import opened FsSpec
  import opened Ranges

  // A directory's list is `cells`, one more than its entries: the last one is the sentinel.
  datatype Node =
    | DirN(name: Name, parent: nat, depth: nat, cells: seq<nat>, kids: seq<nat>)
    | FileN(name: Name, parent: nat, depth: nat, chain: seq<nat>, chunks: seq<Chunk>, size: nat)

  datatype Shape = Shape(nodes: map<nat, Node>, own: map<nat, nat>, root: nat, bound: nat)

  function Parts(n: Node): seq<nat> {
    if n.DirN? then n.cells else n.chain
  }

  predicate NoDup(s: seq<nat>) {
    forall i, j :: 0 <= i < j < |s| ==> s[i] != s[j]
  }

  // ---------- Well-formedness ----------

  // The nodes form a tree under the root.
  ghost predicate TreeOk(s: Shape) {
    s.root in s.nodes && s.nodes[s.root].DirN?
    && s.nodes[s.root].depth == 0 && s.nodes[s.root].name == [] && s.nodes[s.root].parent == s.root
    && (forall a {:trigger NodeTreeOk(s, a)} :: a in s.nodes ==> NodeTreeOk(s, a))
  }

  ghost predicate NodeTreeOk(s: Shape, a: nat)
    requires a in s.nodes
  {
    var n := s.nodes[a];
    n.depth <= s.bound
    && (n.DirN? ==> |n.cells| == |n.kids| + 1 && NoDup(n.kids))
    && (n.DirN? ==> forall i {:trigger KidOk(s, a, n.kids[i])} :: 0 <= i < |n.kids| ==> KidOk(s, a, n.kids[i]))
    && (a != s.root ==> n.parent in s.nodes && s.nodes[n.parent].DirN? && a in s.nodes[n.parent].kids)
  }

  ghost predicate KidOk(s: Shape, a: nat, k: nat)
    requires a in s.nodes
  {
    k in s.nodes && k != s.root && s.nodes[k].parent == a && s.nodes[k].depth == s.nodes[a].depth + 1
  }

  // No block is used twice: own maps each block in use to the one inode it belongs to.
  ghost predicate OwnOk(s: Shape) {
    (forall x {:trigger OwnerOk(s, x)} :: x in s.own ==> 1 <= x < MAX_BLOCK && OwnerOk(s, x))
    && (forall a {:trigger NodeOwns(s, a)} :: a in s.nodes ==> NodeOwns(s, a))
  }

  ghost predicate OwnerOk(s: Shape, x: nat)
    requires x in s.own
  {
    var a := s.own[x];
    a in s.nodes && (x == a || x in Parts(s.nodes[a]))
  }

  ghost predicate NodeOwns(s: Shape, a: nat)
    requires a in s.nodes
  {
    var p := Parts(s.nodes[a]);
    a in s.own && s.own[a] == a && NoDup(p)
    && forall i :: 0 <= i < |p| ==> p[i] in s.own && s.own[p[i]] == a
  }

  // The record of a node's inode.
  ghost predicate InodeIs(b: Block, a: nat, n: Node) {
    Parts(n) != [] && b.Inode?
    && b.isDir == n.DirN? && b.name == n.name && b.parent == n.parent && b.start == Parts(n)[0]
    && b.size == (if n.DirN? then 0 else n.size) && b.addr == a
  }

  ghost predicate CellIs(b: Block, n: Node, i: nat)
    requires n.DirN? && |n.cells| == |n.kids| + 1 && i < |n.cells|
  {
    b.Cell? && b.addr == n.cells[i]
    && (if i == |n.kids| then b.last else !b.last && b.inode == n.kids[i] && b.next == n.cells[i + 1])
  }

  ghost predicate DataIs(b: Block, n: Node, i: nat)
    requires n.FileN? && |n.chunks| == |n.chain| && i < |n.chain|
  {
    b.Data? && b.bytes == n.chunks[i] && b.addr == n.chain[i]
    && b.prev == (if i == 0 then 0 else n.chain[i - 1])
    && b.next == (if i + 1 == |n.chain| then 0 else n.chain[i + 1])
  }

  // The blocks of one node hold what the node says.
  ghost predicate NodeOk(d: Image, a: nat, n: Node) {
    a < MAX_BLOCK && InodeIs(d[a], a, n)
    && (forall i :: 0 <= i < |Parts(n)| ==> Parts(n)[i] < MAX_BLOCK)
    && (match n
        case DirN(_, _, _, cells, kids) =>
          |cells| == |kids| + 1
          && forall i {:trigger CellIs(d[cells[i]], n, i)} :: 0 <= i < |cells| ==> CellIs(d[cells[i]], n, i)
        case FileN(_, _, _, chain, chunks, size) =>
          |chunks| == |chain| && size <= DATA_SIZE * |chain|
          && forall i {:trigger DataIs(d[chain[i]], n, i)} :: 0 <= i < |chain| ==> DataIs(d[chain[i]], n, i))
  }

  ghost predicate DiskOk(d: Image, s: Shape) {
    d[0].Super? && d[0].root == s.root
    && forall a {:trigger NodeOk(d, a, s.nodes[a])} :: a in s.nodes ==> NodeOk(d, a, s.nodes[a])
  }

  ghost predicate WF(d: Image, s: Shape) {
    s.root < MAX_BLOCK && TreeOk(s) && OwnOk(s) && DiskOk(d, s)
  }

  // ---------- The abstract tree ----------

  function Flatten(cs: seq<Chunk>): (r: seq<byte>)
    ensures |r| == DATA_SIZE * |cs|
  {
    if cs == [] then [] else Flatten(cs[..|cs| - 1]) + cs[|cs| - 1]
  }

  function Content(n: Node): seq<byte>
    requires n.FileN?
  {
    if n.size <= DATA_SIZE * |n.chunks| then Flatten(n.chunks)[..n.size] else Flatten(n.chunks)
  }

  ghost function Abs(s: Shape, a: nat): (t: Tree)
    requires TreeOk(s) && a in s.nodes
    ensures t.name == s.nodes[a].name && (t.Dir? <==> s.nodes[a].DirN?)
    ensures t.Dir? ==> |t.kids| == |s.nodes[a].kids|
    decreases s.bound - s.nodes[a].depth
  {
    var n := s.nodes[a];
    assert NodeTreeOk(s, a);
    match n
    case FileN(name, _, _, chain, _, _) => File(name, Content(n), |chain|)
    case DirN(name, _, _, _, kids) =>
      assert forall i :: 0 <= i < |kids| ==> KidOk(s, a, kids[i]);
      assert forall i :: 0 <= i < |kids| ==> NodeTreeOk(s, kids[i]);
      Dir(name, seq(|kids|, i requires 0 <= i < |kids| => Abs(s, kids[i])))
  }

  ghost function AbsRoot(s: Shape): Tree
    requires TreeOk(s)
  {
    Abs(s, s.root)
  }

  lemma KidFacts(s: Shape, a: nat, i: nat)
    requires TreeOk(s) && a in s.nodes && s.nodes[a].DirN? && i < |s.nodes[a].kids|
    ensures KidOk(s, a, s.nodes[a].kids[i])
    ensures Abs(s, a).kids[i] == Abs(s, s.nodes[a].kids[i])
  {
    assert NodeTreeOk(s, a);
  }

  // The k-th entry of a directory.
  ghost function Kid(s: Shape, a: nat, k: nat): (b: nat)
    requires TreeOk(s) && a in s.nodes && s.nodes[a].DirN? && k < |s.nodes[a].kids|
    ensures KidOk(s, a, b) && Abs(s, a).kids[k] == Abs(s, b)
  {
    KidFacts(s, a, k);
    s.nodes[a].kids[k]
  }

  // The inode an index path leads to.
  ghost function NodeAt(s: Shape, a: nat, ip: seq<nat>): (b: nat)
    requires TreeOk(s) && a in s.nodes && ValidPath(Abs(s, a), ip)
    ensures b in s.nodes && Abs(s, b) == Get(Abs(s, a), ip)
    ensures s.nodes[b].depth == s.nodes[a].depth + |ip|
    decreases |ip|
  {
    if ip == [] then a
    else
      KidFacts(s, a, ip[0]);
      NodeAt(s, s.nodes[a].kids[ip[0]], ip[1..])
  }

  lemma {:induction false} NodeAtConcat(s: Shape, a: nat, p: seq<nat>, q: seq<nat>)
    requires TreeOk(s) && a in s.nodes && ValidPath(Abs(s, a), p)
    requires ValidPath(Get(Abs(s, a), p), q)
    ensures ValidPath(Abs(s, a), p + q)
    ensures NodeAt(s, a, p + q) == NodeAt(s, NodeAt(s, a, p), q)
    decreases |p|
  {
    if p == [] {
      assert p + q == q;
    } else {
      KidFacts(s, a, p[0]);
      assert (p + q)[1..] == p[1..] + q;
      NodeAtConcat(s, s.nodes[a].kids[p[0]], p[1..], q);
    }
  }

  // ---------- Ancestors ----------

  // The node on a's parent chain at depth k.
  ghost function Anc(s: Shape, a: nat, k: nat): (b: nat)
    requires TreeOk(s) && a in s.nodes && k <= s.nodes[a].depth
    ensures b in s.nodes && s.nodes[b].depth == k
    decreases s.nodes[a].depth
  {
    if k == s.nodes[a].depth then a
    else
      UpFacts(s, a);
      Anc(s, s.nodes[a].parent, k)
  }

  lemma UpFacts(s: Shape, a: nat)
    requires TreeOk(s) && a in s.nodes && s.nodes[a].depth > 0
    ensures s.nodes[a].parent in s.nodes
    ensures s.nodes[s.nodes[a].parent].depth == s.nodes[a].depth - 1
  {
    assert NodeTreeOk(s, a);
    var p := s.nodes[a].parent;
    assert NodeTreeOk(s, p);
    var i :| 0 <= i < |s.nodes[p].kids| && s.nodes[p].kids[i] == a;
    assert KidOk(s, p, s.nodes[p].kids[i]);
  }

  lemma {:induction false} AncUp(s: Shape, a: nat, k: nat)
    requires TreeOk(s) && a in s.nodes && 0 < k <= s.nodes[a].depth
    ensures Anc(s, a, k - 1) == s.nodes[Anc(s, a, k)].parent
    decreases s.nodes[a].depth
  {
    UpFacts(s, a);
    if k < s.nodes[a].depth {
      AncUp(s, s.nodes[a].parent, k);
    }
  }

  lemma {:induction false} AncOfNodeAt(s: Shape, a: nat, ip: seq<nat>)
    requires TreeOk(s) && a in s.nodes && ValidPath(Abs(s, a), ip)
    ensures Anc(s, NodeAt(s, a, ip), s.nodes[a].depth) == a
    decreases |ip|
  {
    if ip != [] {
      KidFacts(s, a, ip[0]);
      var k := s.nodes[a].kids[ip[0]];
      AncOfNodeAt(s, k, ip[1..]);
      AncUp(s, NodeAt(s, a, ip), s.nodes[k].depth);
    }
  }

  // b is t or an ancestor of t.
  ghost predicate Above(s: Shape, b: nat, t: nat)
    requires TreeOk(s) && b in s.nodes && t in s.nodes
  {
    s.nodes[b].depth <= s.nodes[t].depth && Anc(s, t, s.nodes[b].depth) == b
  }

  // ---------- Changing one node ----------

  // s' differs from s at node t only, apart from a kid r of t that comes or goes.
  ghost predicate OnlyAt(s: Shape, s': Shape, t: nat, r: nat) {
    TreeOk(s) && TreeOk(s') && s'.root == s.root
    && t in s.nodes && t in s'.nodes && r != s.root
    && (r in s.nodes && r != t ==> s.nodes[r].parent == t)
    && (forall a :: a in s.nodes && a != t && a != r ==> a in s'.nodes && s'.nodes[a] == s.nodes[a])
  }

  lemma {:induction false} AbsElsewhere(s: Shape, s': Shape, t: nat, r: nat, b: nat)
    requires OnlyAt(s, s', t, r) && b in s.nodes && b != r && !Above(s, b, t)
    ensures b in s'.nodes && Abs(s', b) == Abs(s, b)
    decreases s.bound - s.nodes[b].depth
  {
    assert b != t;
    if s.nodes[b].DirN? {
      var kids := s.nodes[b].kids;
      forall i | 0 <= i < |kids|
        ensures kids[i] in s'.nodes && Abs(s', b).kids[i] == Abs(s, b).kids[i]
      {
        var c := kids[i];
        KidFacts(s, b, i);
        KidFacts(s', b, i);
        assert NodeTreeOk(s, c);
        if Above(s, c, t) {
          AncUp(s, t, s.nodes[c].depth);
          assert false;
        }
        AbsElsewhere(s, s', t, r, c);
      }
      assert Abs(s', b).kids == Abs(s, b).kids;
    }
  }

  // Changing node t replaces the subtree there.
  lemma {:induction false} AbsPut(s: Shape, s': Shape, t: nat, r: nat, a: nat, ip: seq<nat>)
    requires OnlyAt(s, s', t, r) && a in s.nodes && (a == r ==> r == t)
    requires ValidPath(Abs(s, a), ip) && NodeAt(s, a, ip) == t
    ensures a in s'.nodes
    ensures Abs(s', a) == Put(Abs(s, a), ip, Abs(s', t))
    decreases |ip|
  {
    if ip != [] {
      assert a != t;
      var kids := s.nodes[a].kids;
      var j := ip[0];
      KidFacts(s, a, j);
      AncOfNodeAt(s, kids[j], ip[1..]);
      assert kids[j] == r ==> r == t;
      AbsPut(s, s', t, r, kids[j], ip[1..]);
      forall i | 0 <= i < |kids| && i != j
        ensures Abs(s', a).kids[i] == Abs(s, a).kids[i]
      {
        KidFacts(s, a, i);
        KidFacts(s', a, i);
        assert NodeTreeOk(s, a);
        assert kids[i] != kids[j];
        AbsElsewhere(s, s', t, r, kids[i]);
      }
      KidFacts(s', a, j);
      assert Abs(s', a).kids == Abs(s, a).kids[j := Put(Abs(s, kids[j]), ip[1..], Abs(s', t))];
    }
  }

  // Every node is reached from the root by some index path.
  lemma {:induction false} Reached(s: Shape, a: nat) returns (ip: seq<nat>)
    requires TreeOk(s) && a in s.nodes
    ensures ValidPath(AbsRoot(s), ip) && NodeAt(s, s.root, ip) == a
    decreases s.nodes[a].depth
  {
    assert NodeTreeOk(s, a);
    if a == s.root {
      ip := [];
    } else {
      var p := s.nodes[a].parent;
      assert NodeTreeOk(s, p);
      var i :| 0 <= i < |s.nodes[p].kids| && s.nodes[p].kids[i] == a;
      KidFacts(s, p, i);
      var up := Reached(s, p);
      assert [i][1..] == [];
      assert ValidPath(Abs(s, p), [i]);
      NodeAtConcat(s, s.root, up, [i]);
      assert NodeAt(s, p, [i]) == NodeAt(s, a, []);
      ip := up + [i];
    }
  }

  // ---------- Blocks in use ----------

  ghost function Leaked(d: Image, s: Shape): set<nat> {
    set x: nat | 1 <= x < MAX_BLOCK && !d[x].Free? && x !in s.own
  }

  ghost function StateOf(d: Image, s: Shape): FsState
    requires TreeOk(s)
  {
    FsState(AbsRoot(s), FreeCount(d), |Leaked(d, s)|)
  }

  // A block a well-formed disk uses is not free, and inodes, cells and data are told apart.
  lemma InUse(d: Image, s: Shape, x: nat)
    requires WF(d, s) && x in s.own
    ensures 1 <= x < MAX_BLOCK && !d[x].Free?
    ensures s.own[x] in s.nodes && (d[x].Inode? <==> s.own[x] == x)
  {
    assert OwnerOk(s, x);
    var a := s.own[x];
    assert NodeOk(d, a, s.nodes[a]);
    var p := Parts(s.nodes[a]);
    if x in p {
      var i :| 0 <= i < |p| && p[i] == x;
      assert s.nodes[a].DirN? ==> CellIs(d[s.nodes[a].cells[i]], s.nodes[a], i);
      assert s.nodes[a].FileN? ==> DataIs(d[s.nodes[a].chain[i]], s.nodes[a], i);
    }
  }

  // A block is exactly one of free, reachable and leaked.
  lemma Account(d: Image, s: Shape)
    requires WF(d, s)
    ensures forall x :: x in FreeSet(d) || x in s.own.Keys || x in Leaked(d, s) <==> 1 <= x < MAX_BLOCK
    ensures FreeSet(d) !! s.own.Keys && Leaked(d, s) !! FreeSet(d) + s.own.Keys
  {
    forall x | x in s.own.Keys
      ensures 1 <= x < MAX_BLOCK && x !in FreeSet(d)
    {
      InUse(d, s, x);
    }
  }

  // The exact account in numbers.
  lemma AccountSize(d: Image, s: Shape)
    requires WF(d, s)
    ensures FreeCount(d) + |s.own.Keys| + |Leaked(d, s)| == MAX_BLOCK - 1
  {
    Account(d, s);
    UnionSize(FreeSet(d), s.own.Keys, Leaked(d, s), Range(1, |d|));
  }

  lemma UnionSize(a: set<nat>, b: set<nat>, c: set<nat>, all: set<nat>)
    requires a !! b && c !! a + b
    requires forall x :: x in all <==> x in a || x in b || x in c
    ensures a + b + c == all
    ensures |a| + |b| + |c| == |all|
  {
  }

  // ---------- Keeping the other nodes ----------

  // A node none of whose blocks change stays well-formed.
  lemma NodeKept(d: Image, d': Image, s: Shape, a: nat)
    requires a in s.nodes && NodeOk(d, a, s.nodes[a]) && NodeOwns(s, a)
    requires forall x :: x in s.own && s.own[x] == a && x < MAX_BLOCK ==> d'[x] == d[x]
    ensures NodeOk(d', a, s.nodes[a])
  {
  }
}
