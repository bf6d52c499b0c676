// The calls of fs.c on the block device.  Each one is proved to do to the tree, the free blocks
// and the leaked blocks what FsSpec says.

module FileSystems {
  import opened CString
  import opened Blocks
  import opened DirTree
  import opened FsSpec
  import opened FsLaws
  import opened Layout
  import opened Shapes
  import opened ShapeGrow
  import opened ShapeShrink
  import opened ShapeFile
  import opened FsLists
  import opened FsWriting
  import opened DirWalks
  import opened ListWalks
  import opened Options

  // How a call ends: with a code, or in a read through a NULL pointer.
  datatype Return = Returned(code: int) | NullDeref

  class FileSystem {
    const dev: Device
    ghost var shape: Shape

    ghost predicate Valid()
      reads this, dev.blocks
    {
      dev.Valid() && WF(dev.View(), shape)
    }

    ghost function View(): Image
      requires dev.Valid()
      reads dev.blocks
    {
      dev.View()
    }

    ghost function State(): FsState
      requires Valid()
      reads this, dev.blocks
    {
      StateOf(View(), shape)
    }

    // The inode block a resolved path names.
    ghost function InodeOf(ip: seq<nat>): (a: nat)
      requires Valid() && ValidPath(State().tree, ip)
      reads this, dev.blocks
      ensures a in shape.nodes
    {
      NodeAt(shape, shape.root, ip)
    }

    ghost function InodeBlock(a: nat): (b: Block)
      requires Valid() && a in shape.nodes
      reads this, dev.blocks
      ensures InodeIs(b, a, shape.nodes[a])
    {
      NodeFacts(View(), shape, a);
      View()[a]
    }

    constructor (device: Device)
      ensures dev == device
    {
      dev := device;
    }

    // ---------- Looking up ----------

    // How find_inode ends, said of the bytes of the disk: for "/" with the root, for another path without
    // components in memory never written, and else as the walk from the root does.
    ghost function FindEnding(path: text): Ending
      requires Valid()
      reads this, dev.blocks
    {
      var root := InodeBlock(shape.root);
      if path == DELIM then Ending.Found(root)
      else if Components(path) == [] then Astray
      else PathEnding(View(), root, root, Components(path))
    }

    // What the tree says.
    ghost function TreeAnswer(path: text): Ending
      requires Valid()
      reads this, dev.blocks
    {
      match Find(State().tree, path)
      case None => NoInode
      case Some(ip) => Ending.Found(InodeBlock(InodeOf(ip)))
    }

    // The paths for which find_inode answers as the tree does.
    ghost predicate Answers(path: text)
      requires Valid()
      reads this, dev.blocks
    {
      FindEnding(path) == TreeAnswer(path)
    }

    // These are the paths that meet no file before their last component, but for those without components
    // other than "/", ...
    lemma GoodAnswers(path: text)
      requires Valid() && GoodPath(State().tree, path)
      ensures Answers(path)
    {
      RootPath();
      if path != DELIM {
        var root := InodeBlock(shape.root);
        TreeEnding(View(), shape, shape.root, root, Components(path));
      }
    }

    // ... and of the others exactly those for which the walk ends with NULL. Where it ends with an inode, that
    // inode is wrong.
    lemma AnswersExactly(path: text)
      requires Valid()
      ensures Answers(path) <==> GoodPath(State().tree, path) || FindEnding(path) == NoInode
    {
      RootPath();
      if GoodPath(State().tree, path) {
        GoodAnswers(path);
      } else if Components(path) != [] {
        UncleanMisses(State().tree, Components(path));
      }
    }

    // These others go on through a file, and then the walk goes on from the inode of the file over the bytes
    // of the disk.
    lemma IntoFile(path: text, k: nat, ip: seq<nat>)
      requires Valid() && PassesFile(State().tree, path, k, ip)
      ensures !GoodPath(State().tree, path) && Find(State().tree, path) == None
      ensures FindEnding(path)
           == PathEnding(View(), InodeBlock(InodeOf(ip)), InodeBlock(InodeOf(ip)), Components(path)[k..])
    {
      var tree, cs := State().tree, Components(path);
      RootPath();
      FileStops(tree, cs, k, |cs|);
      assert cs[..|cs|] == cs && cs[..k] + cs[k..] == cs;
      FollowsTree(View(), shape, shape.root, InodeBlock(shape.root), cs[..k], cs[k..]);
    }

    // A path through a file whose bytes name an inode of the tree where a list node has the entry's, that of
    // node b: if b has the name looked for, find_inode goes on from b, and ends as a walk of the rest from
    // there.
    lemma ThroughMatch(path: text, k: nat, ip: seq<nat>, b: nat)
      requires Valid() && PassesFile(State().tree, path, k, ip) && b in shape.nodes
      requires var c := InodeBlock(InodeOf(ip)).start; c < MAX_BLOCK && CellInode(Bytes(View()[c])) == b
      requires Abs(shape, b).name == Components(path)[k] && Clean(Abs(shape, b), Components(path)[k + 1..])
      ensures FindEnding(path) == match Resolve(Abs(shape, b), Components(path)[k + 1..])
                               case None => NoInode
                               case Some(q) => Ending.Found(InodeBlock(NodeAt(shape, b, q)))
      ensures Answers(path) <==> Resolve(Abs(shape, b), Components(path)[k + 1..]) == None
    {
      var cs := Components(path);
      AnswersExactly(path);
      IntoFile(path, k, ip);
      FalseMatch(View(), shape, InodeOf(ip), b, cs[k..]);
      assert cs[k..][1..] == cs[k + 1..];
      TreeEnding(View(), shape, b, InodeBlock(b), cs[k + 1..]);
    }

    // A path through a file that fs_create has made and nobody has written to: find_inode never returns.
    lemma FreshFile(path: text, k: nat, ip: seq<nat>)
      requires Valid() && PassesFile(State().tree, path, k, ip)
      requires var c := InodeBlock(InodeOf(ip)).start; c < MAX_BLOCK && View()[c] == NewFirst(false, c)
      ensures FindEnding(path) == Endless && !Answers(path)
    {
      SplitPieces(path, DELIM, k);
      AnswersExactly(path);
      IntoFile(path, k, ip);
      EndlessFile(View(), shape, InodeOf(ip), Components(path)[k..]);
    }

    // find_inode, wherever it returns: NULL exactly when the walk over the bytes ends so, and else the inode with
    // which it ends.
    method FindInode(path: text) returns (res: Option<Block>)
      requires Valid() && Returns(FindEnding(path))
      ensures match FindEnding(path)
              case NoInode => res == None
              case Found(inode) => res == Some(inode)
              case _ => false
    {
      NodeFacts(View(), shape, shape.root);
      var superblock: Block := *;
      superblock := dev.Bread(0, superblock);
      var atRoot := IsRoot(path);
      var root: Block := *;
      root := dev.Bread(superblock.root, root);
      if atRoot {
        return Some(root);
      }
      var junk: Block := *;
      JunkUnused(View(), shape, shape.root, junk, root, Components(path));
      res := WalkPath(dev, root, junk, path);
    }

    // So where it answers, it gives the inode of the tree.
    method FindAnswer(path: text) returns (res: Option<Block>)
      requires Valid() && Answers(path)
      ensures match Find(State().tree, path)
              case None => res == None
              case Some(ip) => res == Some(InodeBlock(InodeOf(ip)))
    {
      res := FindInode(path);
    }

    // ---------- Adding entries ----------

    method EntryIs(ilist: Block, isDir: bool, name: text, ghost a: nat, ghost k: nat) returns (same: bool)
      requires Valid() && a in shape.nodes && shape.nodes[a].DirN? && k < |shape.nodes[a].kids|
      requires |shape.nodes[a].cells| == |shape.nodes[a].kids| + 1 && CellIs(ilist, shape.nodes[a], k)
      ensures k < |Abs(shape, a).kids|
      ensures same <==> Abs(shape, a).kids[k].Dir? == isDir && Abs(shape, a).kids[k].name == name
    {
      KidFacts(shape, a, k);
      NodeFacts(View(), shape, shape.nodes[a].kids[k]);
      var inode: Block := *;
      inode := dev.Bread(ilist.inode, inode);
      return Flag(inode) != 0 && inode.isDir == isDir && inode.name == name;
    }

    method NextNode(ilist: Block, ghost a: nat, ghost k: nat) returns (next: Block)
      requires Valid() && a in shape.nodes && shape.nodes[a].DirN? && k < |shape.nodes[a].kids|
      requires |shape.nodes[a].cells| == |shape.nodes[a].kids| + 1 && CellIs(ilist, shape.nodes[a], k)
      ensures shape.nodes[a].cells[k + 1] < MAX_BLOCK && next == View()[shape.nodes[a].cells[k + 1]]
      ensures CellIs(next, shape.nodes[a], k + 1)
    {
      ghost var n := shape.nodes[a];
      NodeFacts(View(), shape, a);
      assert CellIs(View()[n.cells[k + 1]], n, k + 1) && Parts(n)[k + 1] < MAX_BLOCK;
      next := dev.Bread(ilist.next, ilist);
    }

    // Step 2 of fs_create and fs_mkdir: an entry of this kind and name.
    method Taken(start: nat, isDir: bool, name: text, ghost a: nat) returns (taken: bool)
      requires Valid() && a in shape.nodes && shape.nodes[a].DirN? && shape.nodes[a].cells != []
      requires start == shape.nodes[a].cells[0]
      ensures taken == HasEntry(Abs(shape, a).kids, isDir, name)
    {
      ghost var n := shape.nodes[a];
      ghost var kids := Abs(shape, a).kids;
      NodeFacts(View(), shape, a);
      ghost var k := 0;
      assert CellIs(View()[n.cells[0]], n, 0) && Parts(n)[0] < MAX_BLOCK;
      var ilist: Block := *;
      ilist := dev.Bread(start, ilist);
      while !ilist.last
        invariant k <= |n.kids| && CellIs(ilist, n, k)
        invariant forall j :: 0 <= j < k ==> !(kids[j].Dir? == isDir && kids[j].name == name)
        decreases |n.kids| - k
      {
        var same := EntryIs(ilist, isDir, name, a, k);
        if same {
          return true;
        }
        ilist := NextNode(ilist, a, k);
        k := k + 1;
      }
      return false;
    }

    // The walk to the sentinel.
    method EndOfList(start: nat, ghost a: nat) returns (ilist: Block)
      requires Valid() && a in shape.nodes && shape.nodes[a].DirN? && shape.nodes[a].cells != []
      requires start == shape.nodes[a].cells[0]
      ensures var n := shape.nodes[a];
              |n.cells| == |n.kids| + 1 && n.cells[|n.kids|] < MAX_BLOCK
              && ilist == View()[n.cells[|n.kids|]] && CellIs(ilist, n, |n.kids|)
    {
      ghost var n := shape.nodes[a];
      NodeFacts(View(), shape, a);
      ghost var k := 0;
      assert CellIs(View()[n.cells[0]], n, 0) && Parts(n)[0] < MAX_BLOCK;
      ilist := *;
      ilist := dev.Bread(start, ilist);
      while !ilist.last
        invariant k <= |n.kids| && n.cells[k] < MAX_BLOCK
        invariant ilist == View()[n.cells[k]] && CellIs(ilist, n, k)
        decreases |n.kids| - k
      {
        ilist := NextNode(ilist, a, k);
        k := k + 1;
      }
    }

    // Steps 3 to 5 of fs_create and fs_mkdir: claim two blocks and write the new inode and the
    // first block of its chain or list.  Until they are linked they only leak.
    method Prepare(parent: nat, isDir: bool, name: Name) returns (r: int, x: nat, b: nat)
      requires Valid() && parent < MAX_BLOCK
      modifies dev.blocks
      ensures Valid() && (r == 0 <==> old(State()).free >= 2)
      ensures r != 0 ==>
                r == -3 && State() == FsState(old(State()).tree, 0, old(State()).leaked + old(State()).free)
      ensures r == 0 ==> TwoClaimed(old(View()), View(), x, b, isDir, name, parent)
    {
      ghost var s, d := shape, View();
      x := dev.Dalloc();
      ghost var d1 := View();
      ClaimState(d, s, x, d1);
      b := dev.Dalloc();
      ClaimState(d1, s, b, View());
      if x == MAX_BLOCK || b == MAX_BLOCK {
        return -3, x, b;
      }
      ClaimedTwice(d, s, x, b, isDir, name, parent);
      var failed := dev.Bwrite(x, NewInode(isDir, name, parent, b, x));
      if failed { return -4, x, b; }
      failed := dev.Bwrite(b, NewFirst(isDir, b));
      if failed { return if isDir then -5 else -4, x, b; }
      assert View() == d[x := NewInode(isDir, name, parent, b, x)][b := NewFirst(isDir, b)];
      return 0, x, b;
    }

    // Step 6: append the prepared inode to the parent's list.
    method Link(start: nat, isDir: bool, x: nat, b: nat, ghost d: Image, ghost a: nat, ghost ip: seq<nat>,
                ghost name: Name)
      returns (r: int)
      requires Valid() && WF(d, shape) && ValidPath(AbsRoot(shape), ip) && NodeAt(shape, shape.root, ip) == a
      requires shape.nodes[a].DirN? && shape.nodes[a].cells != [] && start == shape.nodes[a].cells[0]
      requires TwoClaimed(d, View(), x, b, isDir, name, a)
      modifies this, dev.blocks
      ensures if FreeCount(d) == 2 then
                (r == (if isDir then -7 else -6)) && Severed(d, old(shape), a, View())
              else Valid() && r == 0 && State() == Added(StateOf(d, old(shape)), ip, NewTree(isDir, name))
    {
      ghost var s, d4 := shape, View();
      ghost var n := s.nodes[a];
      NodeFacts(d, s, a);
      NodeFacts(d4, s, a);
      var end := EndOfList(start, a);
      var c := dev.Dalloc();
      ghost var d5 := View();
      if c < MAX_BLOCK {
        ClaimLeaks(d4, s, c, Claimed);
        FreeAfterClaim(d4, c, Claimed);
      }
      var cell := Cell(false, end.addr, x, c);
      PartInUse(d5, s, a, |n.kids|);
      assert Parts(n)[|n.kids|] == end.addr;
      var failed := dev.Bwrite(end.addr, cell);
      if failed { return if isDir then -6 else -5; }
      ghost var d6 := View();
      failed := dev.Bwrite(c, Cell(true, c, 0, 0));
      if failed {
        NodeFacts(d5, s, a);
        Overrun(d5, s, a, d6, x);
        return if isDir then -7 else -6;
      }
      LinkedState(d, d4, View(), s, a, ip, x, b, c, isDir, name);
      shape := Grow(s, a, x, b, c, NewLeaf(isDir, name, a, n.depth + 1, b));
      return 0;
    }

    // Steps 2 to 6 of fs_create and fs_mkdir, which differ in the first block of the new inode
    // and in the codes of the writes that fail.  With exactly two free blocks the third
    // allocation fails unnoticed and the directory's list runs off the disk.
    method AddLeaf(parent: Block, isDir: bool, name: Name, ghost ip: seq<nat>) returns (r: int)
      requires Valid() && ValidPath(State().tree, ip) && Get(State().tree, ip).Dir?
      requires parent == InodeBlock(InodeOf(ip))
      modifies this, dev.blocks
      ensures var st := old(State());
              var kids := Get(st.tree, ip).kids;
              if HasEntry(kids, isDir, name) then Valid() && State() == st && r == -2
              else if st.free < 2 then Valid() && State() == FsState(st.tree, 0, st.leaked + st.free) && r == -3
              else if st.free == 2 then
                (r == (if isDir then -7 else -6)) && Severed(old(View()), old(shape), old(InodeOf(ip)), View())
              else Valid() && r == 0 && State() == Added(st, ip, NewTree(isDir, name))
    {
      ghost var d, a := View(), InodeOf(ip);
      NodeFacts(d, shape, a);
      var taken := Taken(parent.start, isDir, name, a);
      if taken {
        return -2;
      }
      var code, x, b := Prepare(parent.addr, isDir, name);
      if code != 0 {
        return code;
      }
      r := Link(parent.start, isDir, x, b, d, a, ip, name);
    }

    // A parent that is missing or a file is refused; a name taken by a file too.
    method FsCreate(path: text, filename: Name) returns (r: int)
      requires Valid() && Answers(path)
      modifies this, dev.blocks
      ensures match Create(old(State()), path, filename)
              case Done(st, code) => Valid() && State() == st && r == code
              case Corrupt => r == -6
                && Severed(old(View()), old(shape), old(InodeOf(Find(State().tree, path).value)), View())
              case Fault => false
      ensures var st := old(State());
              var d, taken := DirAt(st.tree, path), EntryAt(st.tree, path, false, filename);
              && (r == 0 <==> d && !taken && st.free >= 3)
              && (r == -1 <==> !d)
              && (r == -2 <==> d && taken)
              && (r == -3 <==> d && !taken && st.free < 2)
              && (r == -6 <==> d && !taken && st.free == 2)
      ensures r == 0 ==> Valid() && Appended(old(State()), State(), path, File(filename, [], 1))
      ensures r == -1 || r == -2 ==> Valid() && State() == old(State())
    {
      CreateExactly(State(), path, filename);
      var parent := FindAnswer(path);
      if parent == None || Flag(parent.value) == 0 || !parent.value.isDir {
        return -1;
      }
      r := AddLeaf(parent.value, false, filename, Find(State().tree, path).value);
    }

    // fs_mkdir tests its path where it means the inode: a missing parent is read through NULL.
    method FsMkdir(path: text, dirname: Name) returns (r: Return)
      requires Valid() && Answers(path)
      modifies this, dev.blocks
      ensures match Mkdir(old(State()), path, dirname)
              case Done(st, code) => Valid() && State() == st && r == Returned(code)
              case Corrupt => r == Returned(-7)
                && Severed(old(View()), old(shape), old(InodeOf(Find(State().tree, path).value)), View())
              case Fault => Valid() && State() == old(State()) && r == NullDeref
      ensures var st := old(State());
              var d, taken := DirAt(st.tree, path), EntryAt(st.tree, path, true, dirname);
              && (r == Returned(0) <==> d && !taken && st.free >= 3)
              && (r == Returned(-1) <==> FileAt(st.tree, path))
              && (r == NullDeref <==> !d && !FileAt(st.tree, path))
              && (r == Returned(-2) <==> d && taken)
              && (r == Returned(-3) <==> d && !taken && st.free < 2)
              && (r == Returned(-7) <==> d && !taken && st.free == 2)
      ensures r == Returned(0) ==> Valid() && Appended(old(State()), State(), path, Dir(dirname, []))
      ensures r == Returned(-1) || r == Returned(-2) ==> Valid() && State() == old(State())
    {
      MkdirExactly(State(), path, dirname);
      var parent := FindAnswer(path);
      if parent == None {
        return NullDeref;
      }
      if Flag(parent.value) == 0 || !parent.value.isDir {
        return Returned(-1);
      }
      var code := AddLeaf(parent.value, true, dirname, Find(State().tree, path).value);
      return Returned(code);
    }

    // ---------- Removing entries ----------

    // Step 2 of fs_rm: the whole chain is freed, however long.
    method FreeChain(start: nat, ghost x: nat)
      requires Valid() && x in shape.nodes && shape.nodes[x].FileN? && shape.nodes[x].chain != []
      requires start == shape.nodes[x].chain[0]
      modifies dev.blocks
      ensures Freed(old(View()), View(), shape.nodes[x].chain)
      ensures FreeCount(View()) == FreeCount(old(View())) + |shape.nodes[x].chain|
    {
      ghost var d, n, i := View(), shape.nodes[x], 0;
      ChainAt(d, shape, x, 0);
      var block: Block := *;
      block := dev.Bread(start, block);
      while Flag(block) != 0
        invariant i < |n.chain| && n.chain[i] < MAX_BLOCK && |n.chunks| == |n.chain| && DataIs(block, n, i)
        invariant Freed(d, View(), n.chain[..i]) && FreeCount(View()) == FreeCount(d) + i
        decreases |n.chain| - i
      {
        var next := block.next;
        FreeNext(d, shape, x, i, View());
        dev.Dfree(block.addr);
        if next == 0 {
          return;
        }
        i := i + 1;
        ChainAt(d, shape, x, i);
        block := dev.Bread(next, block);
      }
    }

    // Step 3 of fs_rm and fs_rmdir: the cell that refers to addr is unlinked and freed; nothing
    // happens when there is none.
    method Unlink(parent: nat, addr: nat, ghost n: Node, ghost j: nat)
      requires dev.Valid() && n.DirN? && NodeOk(View(), parent, n) && NoDup(n.cells) && parent !in n.cells
      requires j <= |n.kids| && forall k :: 0 <= k < |n.kids| ==> (n.kids[k] == addr <==> k == j)
      modifies dev.blocks
      ensures if j == |n.kids| then View() == old(View())
              else IsUnlinked(old(View()), View(), parent, n, j)
    {
      ghost var d := View();
      var parentDir: Block := *;
      parentDir := dev.Bread(parent, parentDir);
      var prev := Free;
      ghost var k := 0;
      assert CellIs(d[n.cells[0]], n, 0) && Parts(n)[0] < MAX_BLOCK;
      var ilist: Block := *;
      ilist := dev.Bread(parentDir.start, ilist);
      while !ilist.last
        invariant k <= |n.kids| && k <= j && CellIs(ilist, n, k)
        invariant n.cells[k] < MAX_BLOCK && ilist == d[n.cells[k]]
        invariant if k == 0 then prev == Free
                  else n.cells[k - 1] < MAX_BLOCK && prev == d[n.cells[k - 1]] && CellIs(prev, n, k - 1)
        invariant View() == d
        decreases |n.kids| - k
      {
        assert CellIs(d[n.cells[k + 1]], n, k + 1) && Parts(n)[k + 1] < MAX_BLOCK;
        if ilist.inode == addr {
          if Flag(prev) != 0 {
            var _ := dev.Bwrite(prev.addr, Cell(prev.last, prev.addr, prev.inode, ilist.next));
          } else {
            var _ := dev.Bwrite(parentDir.addr, parentDir.(start := ilist.next));
          }
          dev.Dfree(ilist.addr);
          return;
        }
        prev := ilist;
        ilist := dev.Bread(ilist.next, ilist);
        k := k + 1;
      }
    }

    // Steps 2 to 4 of fs_rm.
    method RemoveFile(target: Block, ghost ip: seq<nat>)
      requires Valid() && ip != [] && ValidPath(State().tree, ip) && Get(State().tree, ip).File?
      requires target == InodeBlock(InodeOf(ip))
      modifies this, dev.blocks
      ensures Valid() && State() == FsState(Drop(old(State()).tree, ip),
                                            old(State()).free + Get(old(State()).tree, ip).blocks + 2,
                                            old(State()).leaked)
    {
      ghost var s, d, x := shape, View(), InodeOf(ip);
      NodeFacts(d, s, x);
      FreeChain(target.start, x);
      ghost var d1 := View();
      ghost var a, j := ParentNode(d, s, ip);
      ParentKept(d, d1, s, a, x);
      Unlink(target.parent, target.addr, s.nodes[a], j);
      ghost var d2 := View();
      dev.Dfree(target.addr);
      RemoveOk(d, d1, d2, s, ip, a, j);
      shape := Shrink(s, a, j);
    }

    method FsRm(path: text) returns (r: int)
      requires Valid() && Answers(path)
      modifies this, dev.blocks
      ensures match Rm(old(State()), path)
              case Done(st, code) => Valid() && State() == st && r == code
              case _ => false
      ensures r == 0 <==> FileAt(old(State()).tree, path)
      ensures r == -1 <==> !FileAt(old(State()).tree, path)
      ensures r == -1 ==> State() == old(State())
      ensures r == 0 ==> Removed(old(State()).tree, State().tree, path) && State().leaked == old(State()).leaked
      ensures var t := old(State()).tree;
              forall ip :: Leads(t, Components(path), ip) && Get(t, ip).File? ==>
                State().free == old(State()).free + Get(t, ip).blocks + 2
    {
      RmExactly(State(), path);
      var target := FindAnswer(path);
      if target == None || Flag(target.value) == 0 || target.value.isDir {
        return -1;
      }
      RemoveFile(target.value, Find(State().tree, path).value);
      return 0;
    }

    // Steps 3 and 4 of fs_rmdir for an empty directory.
    method DetachDir(target: Block, ghost ip: seq<nat>)
      requires Valid() && ValidPath(State().tree, ip) && Get(State().tree, ip).Dir?
      requires Get(State().tree, ip).kids == [] && target == InodeBlock(InodeOf(ip))
      modifies this, dev.blocks
      ensures if ip == [] then View() == old(View())[old(shape.root) := Free]
              else Valid() && State() == FsState(Drop(old(State()).tree, ip),
                                                 old(State()).free + 2, old(State()).leaked + 1)
    {
      ghost var s, d, x := shape, View(), InodeOf(ip);
      NodeFacts(d, s, x);
      ghost var a, j := x, 0;
      if ip != [] {
        a, j := ParentNode(d, s, ip);
      }
      Unlink(target.parent, target.addr, s.nodes[a], j);
      ghost var d2 := View();
      dev.Dfree(target.addr);
      if ip != [] {
        RemoveOk(d, d, d2, s, ip, a, j);
        shape := Shrink(s, a, j);
      }
    }

    // Step 2 of fs_rmdir.
    method IsEmpty(start: nat, ghost a: nat) returns (empty: bool)
      requires Valid() && a in shape.nodes && shape.nodes[a].DirN? && InodeBlock(a).start == start
      ensures empty <==> Abs(shape, a).kids == []
    {
      ghost var n := shape.nodes[a];
      NodeFacts(View(), shape, a);
      assert CellIs(View()[n.cells[0]], n, 0) && Parts(n)[0] < MAX_BLOCK;
      var ilist: Block := *;
      ilist := dev.Bread(start, ilist);
      return ilist.last;
    }

    // Only an empty directory goes, and never its sentinel.  The empty root passes every test and
    // loses its inode.
    method FsRmdir(path: text) returns (r: int)
      requires Valid() && Answers(path)
      modifies this, dev.blocks
      ensures match Rmdir(old(State()), path)
              case Done(st, code) => Valid() && State() == st && r == code
              case Corrupt => r == 0 && View() == old(View())[old(shape.root) := Free]
              case Fault => false
      ensures var t := old(State()).tree;
              && (r == -1 <==> !DirAt(t, path))
              && (r == -2 <==> DirAt(t, path) && !EmptyDirAt(t, path))
              && (r == 0 <==> EmptyDirAt(t, path))
      ensures r != 0 ==> Valid() && State() == old(State())
      ensures r == 0 && Components(path) != [] ==>
                Valid() && Removed(old(State()).tree, State().tree, path)
                && State().free == old(State()).free + 2 && State().leaked == old(State()).leaked + 1
    {
      RmdirExactly(State(), path);
      var target := FindAnswer(path);
      if target == None || Flag(target.value) == 0 || !target.value.isDir {
        return -1;
      }
      ghost var ip := Find(State().tree, path).value;
      var empty := IsEmpty(target.value.start, InodeOf(ip));
      if !empty {
        return -2;
      }
      DetachDir(target.value, ip);
      return 0;
    }

    // ---------- Writing and reading ----------

    // One pass of the loop of fs_write after its memcpy.  `garbage` is what the stack holds where a
    // new block's data will be.
    method Advance(block: Block, more: bool) returns (next: Block, ghost c: nat, ghost junk: Chunk)
      requires dev.Valid() && block.Data? && block.addr <= MAX_BLOCK && block.next < MAX_BLOCK
      modifies dev.blocks
      ensures Advanced(old(View()), block, more, View(), next, c, junk)
    {
      next, c, junk := block, 0, block.bytes;
      if more {
        if block.next == 0 {
          var garbage: Chunk := *;
          var addr := dev.Dalloc();
          c, junk := addr, garbage;
          next := Data(garbage, addr, block.addr, 0);
          var _ := dev.Bwrite(block.addr, Data(block.bytes, block.addr, block.prev, addr));
        } else {
          var _ := dev.Bwrite(block.addr, block);
          next := dev.Bread(block.next, next);
        }
      } else {
        var _ := dev.Bwrite(block.addr, block);
      }
    }

    // Step 2 of fs_write.
    method WriteChain(start: nat, data: seq<byte>, ghost f: nat) returns (ghost n: Node, ghost lost: bool)
      requires Valid() && f in shape.nodes && shape.nodes[f].FileN? && shape.nodes[f].chain != []
      requires start == shape.nodes[f].chain[0]
      modifies dev.blocks
      ensures if lost then Lost(old(View()), shape, f, data, View())
              else Written(old(View()), shape, f, data, View(), n)
    {
      ghost var d0, s, i := View(), shape, 0;
      StartAt(d0, s, f, data);
      n, lost := Rewritten(s.nodes[f], s.nodes[f].chain, s.nodes[f].chunks, |data|), false;
      var block: Block := *;
      block := dev.Bread(start, block);
      var remain, offset := |data|, 0;
      while remain != 0
        invariant 0 <= remain && offset + remain == |data| && dev.Valid()
        invariant Writing(d0, s, f, data, View(), n, i, block, remain, lost)
        invariant !lost && remain != 0 ==> offset == DATA_SIZE * i
        decreases remain
      {
        ghost var d, was := View(), block;
        var copySize := if remain < DATA_SIZE then remain else DATA_SIZE;
        remain := remain - copySize;
        WritingBlock(d0, s, f, data, d, n, i, block, remain + copySize, lost);
        block := block.(bytes := Filled(data, offset, block.bytes));
        ghost var c: nat, junk: Chunk;
        ghost var stored := block;
        block, c, junk := Advance(block, remain != 0);
        n, lost := WriteStep(d0, s, f, data, d, n, i, was, stored, block, c, junk, remain, lost, View());
        offset := offset + copySize;
        i := i + 1;
      }
    }

    // Steps 2 and 3 of fs_write.
    method WriteFile(target: Block, data: seq<byte>, ghost ip: seq<nat>)
      requires Valid() && ValidPath(State().tree, ip) && Get(State().tree, ip).File?
      requires target == InodeBlock(InodeOf(ip)) && |data| < 0x1_0000_0000_0000_0000
      modifies this, dev.blocks
      ensures WriteResult(old(View()), old(shape), ip, data, View(), shape)
    {
      ghost var d0, s, f := View(), shape, InodeOf(ip);
      NodeFacts(d0, s, f);
      ghost var n, lost := WriteChain(target.start, data, f);
      var inode := target.(size := |data|);
      ghost var d := View();
      var _ := dev.Bwrite(target.addr, inode);
      WriteDone(d0, s, ip, f, data, d, n, lost, inode, View());
      shape := if lost then s else Rewrite(s, f, n);
    }

    // fs_write does not check its allocations: with too few free blocks it still returns 0, and
    // the chain of the file runs off the disk.
    method FsWrite(path: text, data: seq<byte>) returns (r: int)
      requires Valid() && Answers(path) && |data| < 0x1_0000_0000_0000_0000
      modifies this, dev.blocks
      ensures match Write(old(State()), path, data)
              case Done(st, code) => Valid() && State() == st && r == code
              case Corrupt => r == 0
                && Broken(old(View()), old(shape), old(InodeOf(Find(State().tree, path).value)), |data|, View())
              case Fault => false
      ensures r == -1 <==> !FileAt(old(State()).tree, path)
      ensures r == 0 <==> FileAt(old(State()).tree, path)
      ensures r == -1 ==> Valid() && State() == old(State())
      ensures forall need: nat :: Fills(need, |data|) && Fits(old(State()), path, need) ==>
                Valid() && NewContents(old(State()), State(), path, data, need)
      ensures forall need: nat ::
                Fills(need, |data|) && FileAt(old(State()).tree, path) && !Fits(old(State()), path, need)
                ==> Broken(old(View()), old(shape), old(InodeOf(Find(State().tree, path).value)), |data|, View())
    {
      forall need: nat | Fills(need, |data|)
        ensures Write(State(), path, data).Done? && Write(State(), path, data).code == 0 <==> Fits(State(), path, need)
        ensures Write(State(), path, data) == Done(State(), -1) <==> !FileAt(State().tree, path)
        ensures Write(State(), path, data) == Corrupt <==> FileAt(State().tree, path) && !Fits(State(), path, need)
        ensures Fits(State(), path, need) ==>
                  NewContents(State(), Write(State(), path, data).st, path, data, need)
      {
        WriteExactly(State(), path, data, need);
      }
      Needs(|data|);
      var target := FindAnswer(path);
      if target == None || Flag(target.value) == 0 || target.value.isDir {
        return -1;
      }
      ghost var d0, s0, ip := View(), shape, Find(State().tree, path).value;
      WriteFile(target.value, data, ip);
      WriteAnswers(d0, s0, path, ip, data, View(), shape);
      return 0;
    }

    // The error return of fs_read is -1 as a size_t.
    method FsRead(path: text, buffer: array<byte>, size: nat) returns (count: nat)
      requires Valid() && Answers(path)
      requires size <= buffer.Length && buffer != dev.blocks as object
      modifies buffer
      ensures match Read(State(), path, size)
              case None => count == 0xffff_ffff_ffff_ffff && buffer[..] == old(buffer[..])
              case Some(bytes) =>
                count == |bytes| <= size
                && (forall j :: 0 <= j < count ==> buffer[j] == bytes[j])
                && (forall j :: count <= j < buffer.Length ==> buffer[j] == old(buffer[j]))
      ensures !FileAt(State().tree, path) ==> count == 0xffff_ffff_ffff_ffff && buffer[..] == old(buffer[..])
      ensures forall ip :: Leads(State().tree, Components(path), ip) && Get(State().tree, ip).File? ==>
                var bytes := Get(State().tree, ip).bytes;
                count == (if size < |bytes| then size else |bytes|) && buffer[..count] == bytes[..count]
    {
      ReadExactly(State(), path, size);
      var target := FindAnswer(path);
      if target == None {
        return 0xffff_ffff_ffff_ffff;
      }
      count := ReadInode(target.value, buffer, size, Find(State().tree, path).value);
    }

    // fs_read once the inode is found.
    method ReadInode(target: Block, buffer: array<byte>, size: nat, ghost ip: seq<nat>) returns (count: nat)
      requires Valid() && ValidPath(State().tree, ip) && target == InodeBlock(InodeOf(ip))
      requires size <= buffer.Length && buffer != dev.blocks as object
      modifies buffer
      ensures var t := Get(State().tree, ip);
              if t.Dir? then count == 0xffff_ffff_ffff_ffff && buffer[..] == old(buffer[..])
              else
                count == (if size < |t.bytes| then size else |t.bytes|)
                && (forall j :: 0 <= j < count ==> buffer[j] == t.bytes[j])
                && (forall j :: count <= j < buffer.Length ==> buffer[j] == old(buffer[j]))
    {
      if Flag(target) == 0 || target.isDir {
        return 0xffff_ffff_ffff_ffff;
      }
      ghost var f := InodeOf(ip);
      NodeFacts(View(), shape, f);
      count := if size > target.size then target.size else size;
      ReadChain(target.start, count, buffer, f);
      ReadPrefix(shape.nodes[f], count);
    }

    // Step 3 of fs_read for a size already cut to the file's; the chain is long enough.
    method ReadChain(start: nat, want: nat, buffer: array<byte>, ghost f: nat)
      requires Valid() && f in shape.nodes && shape.nodes[f].FileN? && shape.nodes[f].chain != []
      requires start == shape.nodes[f].chain[0] && want <= shape.nodes[f].size
      requires want <= buffer.Length && buffer != dev.blocks as object
      modifies buffer
      ensures want <= |Flatten(shape.nodes[f].chunks)|
      ensures forall j :: 0 <= j < want ==> buffer[j] == Flatten(shape.nodes[f].chunks)[j]
      ensures forall j :: want <= j < buffer.Length ==> buffer[j] == old(buffer[j])
    {
      ghost var d, n, i := View(), shape.nodes[f], 0;
      ghost var whole := Flatten(n.chunks);
      ChainAt(d, shape, f, 0);
      var block: Block := *;
      block := dev.Bread(start, block);
      var todo, count := want, 0;
      while todo > 0
        invariant 0 <= todo && 0 <= count && count + todo == want <= |whole|
        invariant todo > 0 ==> count == DATA_SIZE * i && i < |n.chain| && DataIs(block, n, i)
        invariant forall j :: 0 <= j < count ==> buffer[j] == whole[j]
        invariant forall j :: count <= j < buffer.Length ==> buffer[j] == old(buffer[j])
        invariant View() == d
        decreases todo
      {
        var k := if todo < DATA_SIZE then todo else DATA_SIZE;
        forall j | 0 <= j < k {
          buffer[count + j] := block.bytes[j];
        }
        FlattenAt(n.chunks, i);
        assert forall j :: 0 <= j < k ==> whole[count + j] == n.chunks[i][j];
        assert forall j :: count <= j < count + k ==> buffer[j] == block.bytes[j - count];
        count, todo := count + k, todo - k;
        if todo > 0 {
          ChainAt(d, shape, f, i);
          if block.next == 0 {
            break;
          }
          i := i + 1;
          ChainAt(d, shape, f, i);
          block := dev.Bread(block.next, block);
        }
      }
    }

    // ---------- Formatting ----------

    // The root's inode and its list without entries.
    method StoreRoot(x: nat, l: nat) returns (failed: bool)
      requires dev.Valid() && 1 <= x <= MAX_BLOCK && 1 <= l <= MAX_BLOCK && (x < MAX_BLOCK ==> x != l)
      requires (x < MAX_BLOCK ==> !View()[x].Free?) && (l < MAX_BLOCK ==> !View()[l].Free?)
      modifies dev.blocks
      ensures failed <==> x == MAX_BLOCK || l == MAX_BLOCK
      ensures View()[0] == old(View())[0]
      ensures !failed ==>
                View() == old(View())[x := Inode(true, [], x, l, 0, x)][l := Cell(true, l, 0, 0)]
                && FreeSet(View()) == FreeSet(old(View()))
    {
      ghost var d := View();
      var inode, list := Inode(true, [], x, l, 0, x), Cell(true, l, 0, 0);
      failed := dev.Bwrite(x, inode);
      if failed { return; }
      FreeAfterOverwrite(d, x, inode);
      ghost var d' := View();
      failed := dev.Bwrite(l, list);
      if !failed { FreeAfterOverwrite(d', l, list); }
    }

    // fs_init refuses a disk whose block 0 carries flag 1, and otherwise makes an empty root in
    // the two lowest free blocks; it fails when there are not two.
    method FsInit() returns (r: int)
      requires dev.Valid()
      modifies this, dev.blocks
      ensures var d := old(View());
              if Flag(d[0]) == 1 then r == -1 && View() == d
              else if FreeCount(d) < 2 then r == -2 && Flag(View()[0]) == 1
              else r == 0 && Valid() && State() == Empty(FreeCount(d) - 2, State().leaked)
                   && Total(State()) == MAX_BLOCK - 1
      ensures r == 0 ==> State().tree == Tree.Dir([], []) && State().free == FreeCount(old(View())) - 2
    {
      var superblock: Block := *;
      superblock := dev.Bread(0, superblock);
      if Flag(superblock) == 1 {
        return -1;
      }
      ghost var d := View();
      var rootBlock := dev.Dalloc();
      if rootBlock < MAX_BLOCK { FreeAfterClaim(d, rootBlock, Claimed); }
      ghost var d1 := View();
      var failed := dev.Bwrite(0, Super(rootBlock));
      if failed { return -2; }
      assert FreeSet(View()) == FreeSet(d1);
      ghost var d2 := View();
      var rootList := dev.Dalloc();
      if rootList < MAX_BLOCK { FreeAfterClaim(d2, rootList, Claimed); }
      failed := StoreRoot(rootBlock, rootList);
      if failed { return -2; }
      shape := EmptyShape(rootBlock, rootList);
      EmptyOk(View(), rootBlock, rootList);
      return 0;
    }
  }

  // After k components the path is at the file at ip, and goes on.
  ghost predicate PassesFile(t: Tree, path: text, k: nat, ip: seq<nat>) {
    0 < k < |Components(path)| && Clean(t, Components(path)[..k]) && Resolve(t, Components(path)[..k]) == Some(ip)
    && ValidPath(t, ip) && Get(t, ip).File?
  }

  lemma RootPath()
    ensures Components(DELIM) == []
  {
    assert DELIM[0] in DELIM && DELIM[1..] == [];
    assert Split(DELIM, DELIM) == Split(DELIM[1..], DELIM);
  }

  // Names that lead to a file and go on are not clean, and find nothing.
  lemma {:induction false} FileStops(t: Tree, cs: seq<seq<byte>>, k: nat, m: nat)
    requires k < m <= |cs| && Resolve(t, cs[..k]).Some?
    requires Get(t, Resolve(t, cs[..k]).value).File?
    ensures !Clean(t, cs[..m]) && Resolve(t, cs[..m]) == None
    decreases k
  {
    if k > 0 {
      var i := FirstNamed(t.kids, cs[0]);
      assert cs[..k][1..] == cs[1..][..k - 1] && cs[..m][1..] == cs[1..][..m - 1];
      var q := Resolve(t.kids[i], cs[1..][..k - 1]);
      assert ([i] + q.value)[1..] == q.value;
      FileStops(t.kids[i], cs[1..], k - 1, m - 1);
    }
  }

  lemma {:induction false} UncleanMisses(t: Tree, cs: seq<seq<byte>>)
    requires !Clean(t, cs)
    ensures Resolve(t, cs) == None
    decreases |cs|
  {
    if t.Dir? { UncleanMisses(t.kids[FirstNamed(t.kids, cs[0])], cs[1..]); }
  }

  // strcmp(path, "/") == 0.
  method IsRoot(path: text) returns (r: bool)
    ensures r <==> path == DELIM
  {
    TextIs(path + [0], 0, |path|);
    TextIs(DELIM + [0], 0, 1);
    assert (path + [0])[0..|path|] == path && (DELIM + [0])[0..1] == DELIM;
    var order := Strcmp(path + [0], 0, DELIM + [0], 0);
    return order == 0;
  }

  // ---------- Growing a directory ----------

  function NewTree(isDir: bool, name: text): Tree {
    if isDir then Tree.Dir(name, []) else Tree.File(name, [], 1)
  }

  function Added(st: FsState, ip: seq<nat>, leaf: Tree): FsState
    requires ValidPath(st.tree, ip) && Get(st.tree, ip).Dir? && st.free >= 3
  {
    var t := Get(st.tree, ip);
    FsState(Put(st.tree, ip, Dir(t.name, t.kids + [leaf])), st.free - 3, st.leaked)
  }

  // dalloc leaks the block it claims, if there is one.
  lemma ClaimState(d: Image, s: Shape, x: nat, d': Image)
    requires WF(d, s) && IsLowestFree(d, x) && (x == MAX_BLOCK <==> FreeCount(d) == 0)
    requires d' == if x == MAX_BLOCK then d else d[x := Claimed]
    ensures WF(d', s)
    ensures var st := StateOf(d, s);
            StateOf(d', s) == if st.free == 0 then st else FsState(st.tree, st.free - 1, st.leaked + 1)
  {
    if x < MAX_BLOCK {
      ClaimLeaks(d, s, x, Claimed);
      FreeAfterClaim(d, x, Claimed);
    }
  }

  function NewInode(isDir: bool, name: Name, parent: u64, b: nat, x: nat): Block
    requires b < MAX_BLOCK && x < MAX_BLOCK
  {
    Inode(isDir, name, parent, b, 0, x)
  }

  function NewFirst(isDir: bool, b: nat): Block
    requires b < MAX_BLOCK
  {
    if isDir then Cell(true, b, 0, 0) else Data(ZeroChunk(), b, 0, 0)
  }

  // Two blocks that were free now hold the records of a new leaf, and nothing else changed.
  ghost predicate TwoClaimed(d: Image, d': Image, x: nat, b: nat, isDir: bool, name: Name, parent: nat) {
    1 <= x < MAX_BLOCK && 1 <= b < MAX_BLOCK && x != b && d[x].Free? && d[b].Free? && parent < MAX_BLOCK
    && d' == d[x := NewInode(isDir, name, parent, b, x)][b := NewFirst(isDir, b)]
    && FreeCount(d') == FreeCount(d) - 2
  }

  lemma ClaimedTwice(d: Image, s: Shape, x: nat, b: nat, isDir: bool, name: Name, parent: nat)
    requires WF(d, s) && 1 <= x < MAX_BLOCK && 1 <= b < MAX_BLOCK && x != b && d[x].Free? && d[b].Free?
    requires parent < MAX_BLOCK
    ensures var d' := d[x := NewInode(isDir, name, parent, b, x)][b := NewFirst(isDir, b)];
            WF(d', s) && TwoClaimed(d, d', x, b, isDir, name, parent)
  {
    var inode, first := NewInode(isDir, name, parent, b, x), NewFirst(isDir, b);
    ClaimLeaks(d, s, x, inode);
    ClaimLeaks(d[x := inode], s, b, first);
    FreeAfterClaim(d, x, inode);
    FreeAfterClaim(d[x := inode], b, first);
  }

  lemma LinkedState(d: Image, d4: Image, d': Image, s: Shape, a: nat, ip: seq<nat>, x: nat, b: nat, c: nat,
                    isDir: bool, name: Name)
    requires WF(d, s) && ValidPath(AbsRoot(s), ip) && NodeAt(s, s.root, ip) == a && s.nodes[a].DirN?
    requires NodeFacts1(d, s, a)
    requires TwoClaimed(d, d4, x, b, isDir, name, a)
    requires 1 <= c < MAX_BLOCK && d4[c].Free?
    requires var end := s.nodes[a].cells[|s.nodes[a].kids|];
             end < MAX_BLOCK && d4[end].Cell?
             && d' == d4[c := Claimed][end := Cell(false, end, x, c)][c := Cell(true, c, 0, 0)]
    ensures FreeCount(d) >= 3
    ensures var s' := Grow(s, a, x, b, c, NewLeaf(isDir, name, a, s.nodes[a].depth + 1, b));
            WF(d', s') && StateOf(d', s') == Added(StateOf(d, s), ip, NewTree(isDir, name))
  {
    var end := s.nodes[a].cells[|s.nodes[a].kids|];
    SomeFree(d4, c);
    FreeAfterClaim(d4, c, Claimed);
    FreeAfterOverwrite(d4[c := Claimed], end, Cell(false, end, x, c));
    FreeAfterOverwrite(d4[c := Claimed][end := Cell(false, end, x, c)], c, Cell(true, c, 0, 0));
    LinkedOk(d, d4, d', s, a, ip, x, b, c, isDir, name);
  }

  lemma LinkedOk(d: Image, d4: Image, d': Image, s: Shape, a: nat, ip: seq<nat>, x: nat, b: nat, c: nat,
                 isDir: bool, name: Name)
    requires WF(d, s) && ValidPath(AbsRoot(s), ip) && NodeAt(s, s.root, ip) == a && s.nodes[a].DirN?
    requires NodeFacts1(d, s, a)
    requires TwoClaimed(d, d4, x, b, isDir, name, a)
    requires 1 <= c < MAX_BLOCK && d4[c].Free?
    requires var end := s.nodes[a].cells[|s.nodes[a].kids|];
             end < MAX_BLOCK && d' == d4[c := Claimed][end := Cell(false, end, x, c)][c := Cell(true, c, 0, 0)]
    ensures var s' := Grow(s, a, x, b, c, NewLeaf(isDir, name, a, s.nodes[a].depth + 1, b));
            WF(d', s') && Leaked(d', s') == Leaked(d, s)
            && AbsRoot(s') == Put(AbsRoot(s), ip,
                 Dir(Get(AbsRoot(s), ip).name, Get(AbsRoot(s), ip).kids + [NewTree(isDir, name)]))
  {
    var n := s.nodes[a];
    var end := n.cells[|n.kids|];
    PartInUse(d, s, a, |n.kids|);
    assert Parts(n)[|n.kids|] == end;
    forall y | y in s.own ensures 1 <= y < MAX_BLOCK && !d[y].Free? { InUse(d, s, y); }
    var leaf := NewLeaf(isDir, name, a, n.depth + 1, b);
    LeafOk(d', x, leaf);
    GrowOk(d, d', s, a, ip, x, b, c, isDir, name);
  }

  ghost predicate NodeFacts1(d: Image, s: Shape, a: nat)
    requires a in s.nodes
  {
    NodeOk(d, a, s.nodes[a]) && NodeOwns(s, a) && NodeTreeOk(s, a) && 1 <= a < MAX_BLOCK
  }

  // The two records of a new leaf.
  lemma LeafOk(d: Image, x: nat, leaf: Node)
    requires x < MAX_BLOCK && |Parts(leaf)| == 1 && Parts(leaf)[0] < MAX_BLOCK
    requires leaf.parent < MAX_BLOCK
    requires var b := Parts(leaf)[0];
             leaf == NewLeaf(leaf.DirN?, leaf.name, leaf.parent, leaf.depth, b)
             && d[x] == NewInode(leaf.DirN?, leaf.name, leaf.parent, b, x)
             && d[b] == NewFirst(leaf.DirN?, b)
    ensures NodeOk(d, x, leaf)
  {
  }

  // The list of directory a has no end, and of the blocks in use only its sentinel has changed.
  ghost predicate Severed(d: Image, s: Shape, a: nat, d': Image) {
    a in s.nodes && s.nodes[a].DirN? && |s.nodes[a].cells| == |s.nodes[a].kids| + 1
    && (forall n :: !ListEnds(d', s.nodes[a].cells[0], n))
    && Untouched(d, d', [s.nodes[a].cells[|s.nodes[a].kids|]])
  }

  // With the sentinel turned into a cell that points past the disk, the list has no end.
  lemma Overrun(d: Image, s: Shape, a: nat, d': Image, x: u64)
    requires WF(d, s) && a in s.nodes && s.nodes[a].DirN? && NodeOk(d, a, s.nodes[a]) && NodeOwns(s, a)
    requires var n := s.nodes[a]; var end := n.cells[|n.kids|];
             end < MAX_BLOCK && d' == d[end := Cell(false, end, x, MAX_BLOCK)]
    ensures forall m :: !ListEnds(d', s.nodes[a].cells[0], m)
  {
    var n := s.nodes[a];
    forall k | 0 <= k < |n.cells|
      ensures CellOverrun(d', n.cells[k], Successor(n.cells, k))
    {
      assert CellIs(d[n.cells[k]], n, k) && Parts(n)[k] < MAX_BLOCK;
      assert k < |n.kids| ==> Parts(n)[k] != Parts(n)[|n.kids|];
    }
    forall m: nat
      ensures !ListEnds(d', n.cells[0], m)
    {
      OverrunList(d', n.cells, 0, m);
    }
  }

  // ---------- Shrinking a directory ----------

  // The blocks of a chain are free and nothing else changed.
  ghost predicate Freed(d: Image, d': Image, chain: seq<nat>) {
    forall y :: 0 <= y < MAX_BLOCK ==> d'[y] == if y in chain then Free else d[y]
  }

  // One more block of the chain freed.
  lemma FreeNext(d: Image, s: Shape, x: nat, i: nat, d': Image)
    requires WF(d, s) && x in s.nodes && s.nodes[x].FileN? && i < |s.nodes[x].chain|
    requires Freed(d, d', s.nodes[x].chain[..i]) && FreeCount(d') == FreeCount(d) + i
    ensures var n := s.nodes[x]; var y := n.chain[i];
            1 <= y < MAX_BLOCK && |n.chunks| == |n.chain| && DataIs(d[y], n, i)
            && Freed(d, d'[y := Free], n.chain[..i + 1]) && FreeCount(d'[y := Free]) == FreeCount(d) + i + 1
            && (d[y].next == 0 ==> i + 1 == |n.chain| && n.chain[..i + 1] == n.chain)
            && (d[y].next != 0 ==> i + 1 < |n.chain| && d[y].next == n.chain[i + 1] < MAX_BLOCK)
  {
    var n := s.nodes[x];
    ChainAt(d, s, x, i);
    PartInUse(d, s, x, i);
    if i + 1 < |n.chain| { ChainAt(d, s, x, i + 1); }
    FreeAfterRelease(d', n.chain[i]);
    assert n.chain[..i + 1] == n.chain[..i] + [n.chain[i]];
  }

  ghost predicate IsUnlinked(d: Image, d': Image, parent: nat, n: Node, j: nat)
    requires n.DirN? && |n.cells| == |n.kids| + 1 && j < |n.kids|
  {
    var z, cell, next := Relinked(parent, n, j), n.cells[j], n.cells[j + 1];
    z < MAX_BLOCK && cell < MAX_BLOCK && next < MAX_BLOCK && z != cell
    && (if j == 0 then d[z].Inode? && d' == d[z := d[z].(start := next)][cell := Free]
        else d[z].Cell? && d' == d[z := Cell(d[z].last, d[z].addr, d[z].inode, next)][cell := Free])
  }

  // The directory that holds the entry at ip, and the entry's place in it.
  lemma ParentNode(d: Image, s: Shape, ip: seq<nat>) returns (a: nat, j: nat)
    requires WF(d, s) && ip != [] && ValidPath(AbsRoot(s), ip)
    ensures IsParent(s, ip, a, j) && NodeFacts1(d, s, a) && a !in s.nodes[a].cells
    ensures s.nodes[NodeAt(s, s.root, ip)].parent == a
    ensures forall k :: 0 <= k < |s.nodes[a].kids| ==> (s.nodes[a].kids[k] == NodeAt(s, s.root, ip) <==> k == j)
  {
    var up := ip[..|ip| - 1];
    j := ip[|ip| - 1];
    ParentOf(AbsRoot(s), ip);
    a := NodeAt(s, s.root, up);
    NodeFacts(d, s, a);
    EntryFacts(s, a, j);
    assert [j][1..] == [];
    assert ValidPath(Abs(s, a), [j]);
    NodeAtConcat(s, s.root, up, [j]);
    assert up + [j] == ip;
    assert NodeAt(s, a, [j]) == NodeAt(s, s.nodes[a].kids[j], []);
  }

  ghost predicate IsParent(s: Shape, ip: seq<nat>, a: nat, j: nat) {
    TreeOk(s) && ip != [] && ValidPath(AbsRoot(s), ip) && ValidPath(AbsRoot(s), ip[..|ip| - 1])
    && j == ip[|ip| - 1] && a == NodeAt(s, s.root, ip[..|ip| - 1]) && IsEntry(s, a, j)
    && s.nodes[a].kids[j] == NodeAt(s, s.root, ip)
  }

  // Freeing the chain of one of its files leaves a directory alone.
  lemma ParentKept(d: Image, d1: Image, s: Shape, a: nat, x: nat)
    requires WF(d, s) && a in s.nodes && x in s.nodes && a != x && s.nodes[x].FileN?
    requires Freed(d, d1, s.nodes[x].chain)
    ensures NodeOk(d1, a, s.nodes[a])
  {
    NodeFacts(d, s, a);
    NodeFacts(d, s, x);
    assert forall i :: 0 <= i < |Parts(s.nodes[x])| ==> s.own[Parts(s.nodes[x])[i]] == x;
    NodeKept(d, d1, s, a);
  }

  // The chain of the removed file, or nothing, has been freed.
  ghost predicate LeafFreed(d: Image, d1: Image, leaf: Node) {
    if leaf.FileN? then Freed(d, d1, leaf.chain) else d1 == d
  }

  lemma UnlinkCounts(d: Image, d1: Image, d2: Image, s: Shape, a: nat, x: nat, j: nat)
    requires WF(d, s) && IsEntry(s, a, j) && s.nodes[a].kids[j] == x && LeafFreed(d, d1, s.nodes[x])
    requires IsUnlinked(d1, d2, a, s.nodes[a], j)
    ensures FreeCount(d2) == FreeCount(d1) + 1
    ensures 1 <= x < MAX_BLOCK && !d2[x].Free?
  {
    var n := s.nodes[a];
    var z, cell := Relinked(a, n, j), n.cells[j];
    NodeFacts(d, s, a);
    NodeFacts(d, s, x);
    PartInUse(d, s, a, j);
    GoneOwned(s, a, j);
    CellNotGoneTwice(s, a, j);
    assert s.nodes[x].FileN? ==> !d1[cell].Free? && !d1[x].Free?;
    FreeAfterOverwrite(d1, z, if j == 0 then d1[z].(start := n.cells[j + 1])
                              else Cell(d1[z].last, d1[z].addr, d1[z].inode, n.cells[j + 1]));
    FreeAfterRelease(d1[z := d2[z]], cell);
    assert z != x by { assert j > 0 ==> s.own[Parts(n)[j - 1]] == a; }
  }

  // After the chain, the cell and the inode, the disk is as ShapeShrink asks.
  lemma RmShrunk(d: Image, d1: Image, d2: Image, d3: Image, s: Shape, a: nat, j: nat)
    requires WF(d, s) && IsEntry(s, a, j)
    requires var x := s.nodes[a].kids[j];
             x < MAX_BLOCK && LeafFreed(d, d1, s.nodes[x]) && IsUnlinked(d1, d2, a, s.nodes[a], j)
             && d3 == d2[x := Free]
    ensures Shrunk(d, d3, s, a, j)
  {
    var n := s.nodes[a];
    var x := n.kids[j];
    var leaf := s.nodes[x];
    var z, cell := Relinked(a, n, j), n.cells[j];
    NodeFacts(d, s, a);
    NodeFacts(d, s, x);
    GoneOwned(s, a, j);
    CellNotGoneTwice(s, a, j);
    assert s.own[z] == a && z !in Gone(s, a, j) by {
      if j > 0 { assert s.own[Parts(n)[j - 1]] == a && Parts(n)[j - 1] != Parts(n)[j]; }
      forall y | y in Parts(leaf) ensures s.own[y] == x { }
    }
    assert d1[z] == d[z];
  }

  lemma SentinelLeaks(d: Image, s: Shape, x: nat)
    requires WF(d, s) && x in s.nodes && Leaf(s.nodes[x])
    ensures |Leaked(d, s) + NewLeaks(s.nodes[x])| == |Leaked(d, s)| + if s.nodes[x].DirN? then 1 else 0
  {
    NodeFacts(d, s, x);
    if s.nodes[x].DirN? {
      PartInUse(d, s, x, 0);
      var c := s.nodes[x].cells[0];
      assert c == Parts(s.nodes[x])[0];
      assert NewLeaks(s.nodes[x]) == {c};
      assert c !in Leaked(d, s);
    } else {
      assert Leaked(d, s) + {} == Leaked(d, s);
    }
  }

  // The whole removal: tree, free blocks and leaks.
  lemma RemoveOk(d: Image, d1: Image, d2: Image, s: Shape, ip: seq<nat>, a: nat, j: nat)
    requires WF(d, s) && IsParent(s, ip, a, j)
    requires var x := NodeAt(s, s.root, ip);
             Leaf(s.nodes[x]) && LeafFreed(d, d1, s.nodes[x]) && IsUnlinked(d1, d2, a, s.nodes[a], j)
             && x < MAX_BLOCK
    ensures var x := NodeAt(s, s.root, ip);
            var d3 := d2[x := Free];
            WF(d3, Shrink(s, a, j))
            && StateOf(d3, Shrink(s, a, j))
               == FsState(Drop(AbsRoot(s), ip), FreeCount(d1) + 2,
                          |Leaked(d, s)| + if s.nodes[x].DirN? then 1 else 0)
  {
    RemoveShape(d, d1, d2, s, ip, a, j);
    var x := NodeAt(s, s.root, ip);
    UnlinkCounts(d, d1, d2, s, a, x, j);
    FreeAfterRelease(d2, x);
    SentinelLeaks(d, s, x);
  }

  lemma RemoveShape(d: Image, d1: Image, d2: Image, s: Shape, ip: seq<nat>, a: nat, j: nat)
    requires WF(d, s) && IsParent(s, ip, a, j)
    requires var x := NodeAt(s, s.root, ip);
             Leaf(s.nodes[x]) && LeafFreed(d, d1, s.nodes[x]) && IsUnlinked(d1, d2, a, s.nodes[a], j)
             && x < MAX_BLOCK
    ensures var x := NodeAt(s, s.root, ip);
            var d3, s' := d2[x := Free], Shrink(s, a, j);
            WF(d3, s') && AbsRoot(s') == Drop(AbsRoot(s), ip)
            && Leaked(d3, s') == Leaked(d, s) + NewLeaks(s.nodes[x])
  {
    var x := NodeAt(s, s.root, ip);
    var d3 := d2[x := Free];
    RmShrunk(d, d1, d2, d3, s, a, j);
    ShrinkOk(d, d3, s, a, j, ip[..|ip| - 1]);
    assert ip[..|ip| - 1] + [j] == ip;
  }

  // ---------- Formatting ----------

  function EmptyShape(root: nat, list: nat): Shape {
    Shape(map[root := DirN([], root, 0, [list], [])], map[root := root, list := root], root, 0)
  }

  lemma EmptyOk(d: Image, root: nat, list: nat)
    requires 1 <= root < MAX_BLOCK && 1 <= list < MAX_BLOCK && root != list
    requires d[0] == Super(root) && d[list] == Cell(true, list, 0, 0)
    requires d[root] == Inode(true, [], root, list, 0, root)
    ensures WF(d, EmptyShape(root, list))
    ensures var st := StateOf(d, EmptyShape(root, list));
            st == Empty(FreeCount(d), st.leaked) && Total(st) == MAX_BLOCK - 1
  {
    var s := EmptyShape(root, list);
    assert Parts(s.nodes[root])[0] == list;
    assert NodeTreeOk(s, root);
    assert TreeOk(s) && OwnOk(s) && DiskOk(d, s);
    AccountSize(d, s);
    assert s.own.Keys == {root, list};
    assert AbsRoot(s).kids == [];
  }
}
