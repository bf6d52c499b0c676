// find_inode in a well-formed tree: in directories it does what the tree says.

module DirWalks {
  import opened CString
  import opened Blocks
  import opened DirTree
  import opened Layout
  import opened ListWalks
  import opened Shapes
  import opened FsLists

  // In a directory the inner loop goes from cell to cell, and stops at the sentinel.
  lemma {:induction false} DirCells(d: Image, s: Shape, a: nat, m: nat)
    requires WF(d, s) && a in s.nodes && s.nodes[a].DirN? && NodeOk(d, a, s.nodes[a]) && m <= |s.nodes[a].kids|
    ensures var n := s.nodes[a];
            |n.cells| == |n.kids| + 1 && n.cells[0] < MAX_BLOCK && n.cells[m] < MAX_BLOCK
            && CellAt(d, n.cells[0], m) == n.cells[m] && (FlagOf(Bytes(d[n.cells[m]])) == 2 <==> m == |n.kids|)
    decreases m
  {
    var n := s.nodes[a];
    assert CellIs(d[n.cells[m]], n, m) && Parts(n)[m] < MAX_BLOCK && Parts(n)[0] < MAX_BLOCK;
    CellRoundTrip(d[n.cells[m]]);
    if m > 0 {
      DirCells(d, s, a, m - 1);
      assert CellIs(d[n.cells[m - 1]], n, m - 1);
      CellRoundTrip(d[n.cells[m - 1]]);
    }
  }

  // A cell leads to the inode of its entry, whose name is that of the tree.
  lemma DirInode(d: Image, s: Shape, a: nat, held: Block, token: text, m: nat)
    requires WF(d, s) && a in s.nodes && s.nodes[a].DirN? && NodeOk(d, a, s.nodes[a]) && m < |s.nodes[a].kids|
    requires |s.nodes[a].cells| == |s.nodes[a].kids| + 1 && s.nodes[a].cells[m] < MAX_BLOCK
    ensures var n := s.nodes[a];
            n.kids[m] < MAX_BLOCK && NextInode(d, n.cells[m], held) == d[n.kids[m]]
            && Compared(d[n.kids[m]], token) == if Abs(s, a).kids[m].name == token then Match else Pass
  {
    var n := s.nodes[a];
    assert CellIs(d[n.cells[m]], n, m);
    CellRoundTrip(d[n.cells[m]]);
    KidFacts(s, a, m);
    NodeFacts(d, s, n.kids[m]);
    InodeRoundTrip(d[n.kids[m]]);
    FlagRoundTrip(d[n.kids[m]]);
    NulStops(Bytes(d[n.kids[m]]), 2, token);
    HoldsText(Bytes(d[n.kids[m]]), 2, token);
  }

  lemma DirFate(d: Image, s: Shape, a: nat, held: Block, token: text, c: nat, m: nat)
    requires WF(d, s) && a in s.nodes && s.nodes[a].DirN? && NodeOk(d, a, s.nodes[a]) && m <= |s.nodes[a].kids|
    requires s.nodes[a].cells != [] && c == s.nodes[a].cells[0] && c < MAX_BLOCK
    ensures FateAt(d, c, held, token, m)
            == if m == |s.nodes[a].kids| then Stop else if Abs(s, a).kids[m].name == token then Match else Pass
    ensures m < |s.nodes[a].kids| ==>
              s.nodes[a].kids[m] < MAX_BLOCK && InodeAt(d, c, held, m + 1) == d[s.nodes[a].kids[m]]
  {
    DirCells(d, s, a, m);
    if m < |s.nodes[a].kids| { DirInode(d, s, a, InodeAt(d, c, held, m), token, m); }
  }

  // So it is over at the first entry with the name, or at the sentinel when there is none.
  lemma DirWalk(d: Image, s: Shape, a: nat, held: Block, token: text, c: nat, k: nat)
    requires WF(d, s) && a in s.nodes && s.nodes[a].DirN? && NodeOk(d, a, s.nodes[a])
    requires s.nodes[a].cells != [] && c == s.nodes[a].cells[0] && c < MAX_BLOCK
    requires k == FirstNamed(Abs(s, a).kids, token) && |Abs(s, a).kids| == |s.nodes[a].kids|
    ensures Over(d, c, held, token, k)
    ensures FateAt(d, c, held, token, k) == if k < |s.nodes[a].kids| then Match else Stop
    ensures k < |s.nodes[a].kids| ==>
              s.nodes[a].kids[k] < MAX_BLOCK && InodeAt(d, c, held, k + 1) == d[s.nodes[a].kids[k]]
  {
    DirFate(d, s, a, held, token, c, k);
    forall m: nat | m < k ensures FateAt(d, c, held, token, m) == Pass { DirFate(d, s, a, held, token, c, m); }
  }

  // The inode block of a node.
  ghost function InodeFor(d: Image, s: Shape, a: nat): (b: Block)
    requires WF(d, s) && a in s.nodes
    ensures InodeIs(b, a, s.nodes[a])
  {
    NodeFacts(d, s, a);
    d[a]
  }

  // One component in a directory: missing, or one inode further down.
  lemma DirStep(d: Image, s: Shape, a: nat, held: Block, names: seq<seq<byte>>)
    requires WF(d, s) && a in s.nodes && s.nodes[a].DirN? && names != [] && 0 !in names[0]
    ensures Abs(s, a).Dir? && |Abs(s, a).kids| == |s.nodes[a].kids|
    ensures var k := FirstNamed(Abs(s, a).kids, names[0]);
            PathEnding(d, InodeFor(d, s, a), held, names)
            == if k == |s.nodes[a].kids| then NoInode
               else PathEnding(d, InodeFor(d, s, Kid(s, a, k)), InodeFor(d, s, Kid(s, a, k)), names[1..])
  {
    NodeFacts(d, s, a);
    var k, c := FirstNamed(Abs(s, a).kids, names[0]), d[a].start;
    InodeRoundTrip(d[a]);
    DirCells(d, s, a, 0);
    DirWalk(d, s, a, held, names[0], c, k);
    ComponentEnding(d, d[a], held, names, c, k);
  }

  predicate AllTexts(names: seq<seq<byte>>) { forall i :: 0 <= i < |names| ==> 0 !in names[i] }

  // Where the tree leads to a node, the walk over the bytes goes through its inode; nothing else of the way matters.
  lemma {:induction false} FollowsTree(d: Image, s: Shape, a: nat, held: Block, front: seq<seq<byte>>,
                                       rest: seq<seq<byte>>)
    requires WF(d, s) && a in s.nodes && AllTexts(front) && Resolve(Abs(s, a), front).Some?
    requires front == [] ==> held == InodeFor(d, s, a)
    ensures var b := NodeAt(s, a, Resolve(Abs(s, a), front).value);
            PathEnding(d, InodeFor(d, s, a), held, front + rest)
            == PathEnding(d, InodeFor(d, s, b), InodeFor(d, s, b), rest)
    decreases |front|
  {
    if front == [] {
      assert front + rest == rest;
    } else {
      assert (front + rest)[0] == front[0] && (front + rest)[1..] == front[1..] + rest;
      DirStep(d, s, a, held, front + rest);
      var k := FirstNamed(Abs(s, a).kids, front[0]);
      var b := Kid(s, a, k);
      var q := Resolve(Abs(s, b), front[1..]).value;
      assert ([k] + q)[1..] == q;
      assert forall i :: 0 <= i < |front[1..]| ==> front[1..][i] == front[i + 1];
      FollowsTree(d, s, b, InodeFor(d, s, b), front[1..], rest);
    }
  }

  // And where the tree has no such name in a directory, it ends with NULL.
  lemma {:induction false} MissesTree(d: Image, s: Shape, a: nat, held: Block, names: seq<seq<byte>>)
    requires WF(d, s) && a in s.nodes && AllTexts(names) && Clean(Abs(s, a), names) && Resolve(Abs(s, a), names).None?
    ensures PathEnding(d, InodeFor(d, s, a), held, names) == NoInode
    decreases |names|
  {
    DirStep(d, s, a, held, names);
    var k := FirstNamed(Abs(s, a).kids, names[0]);
    if k < |Abs(s, a).kids| {
      var b := Kid(s, a, k);
      assert forall i :: 0 <= i < |names[1..]| ==> names[1..][i] == names[i + 1];
      MissesTree(d, s, b, InodeFor(d, s, b), names[1..]);
    }
  }

  // From a directory, as long as the path meets no file on its way, the bytes say what the tree says.
  lemma TreeEnding(d: Image, s: Shape, a: nat, held: Block, names: seq<seq<byte>>)
    requires WF(d, s) && a in s.nodes && AllTexts(names) && Clean(Abs(s, a), names)
    requires names == [] ==> held == InodeFor(d, s, a)
    ensures PathEnding(d, InodeFor(d, s, a), held, names)
            == match Resolve(Abs(s, a), names)
               case None => NoInode
               case Some(ip) => Found(InodeFor(d, s, NodeAt(s, a, ip)))
  {
    if Resolve(Abs(s, a), names).Some? {
      assert names + [] == names;
      FollowsTree(d, s, a, held, names, []);
    } else {
      MissesTree(d, s, a, held, names);
    }
  }

  // What the stack holds at the start does not matter.
  lemma JunkUnused(d: Image, s: Shape, a: nat, junk: Block, held: Block, names: seq<seq<byte>>)
    requires WF(d, s) && a in s.nodes && s.nodes[a].DirN? && AllTexts(names) && names != []
    ensures PathEnding(d, InodeFor(d, s, a), junk, names) == PathEnding(d, InodeFor(d, s, a), held, names)
  {
    DirStep(d, s, a, junk, names);
    DirStep(d, s, a, held, names);
  }

  // ---------- In a file ----------

  // A data block whose bytes 16 to 23 are the number of an inode with the name looked for: the walk takes that
  // inode, and goes on from there.
  lemma FalseMatch(d: Image, s: Shape, a: nat, b: nat, names: seq<seq<byte>>)
    requires WF(d, s) && a in s.nodes && s.nodes[a].FileN? && b in s.nodes && names != [] && 0 !in names[0]
    requires var c := InodeFor(d, s, a).start; c < MAX_BLOCK && CellInode(Bytes(d[c])) == b
    requires Abs(s, b).name == names[0]
    ensures PathEnding(d, InodeFor(d, s, a), InodeFor(d, s, a), names)
            == PathEnding(d, InodeFor(d, s, b), InodeFor(d, s, b), names[1..])
  {
    NodeFacts(d, s, a);
    NodeFacts(d, s, b);
    var c := d[a].start;
    assert DataIs(d[s.nodes[a].chain[0]], s.nodes[a], 0);
    InodeRoundTrip(d[a]);
    InodeRoundTrip(d[b]);
    FlagRoundTrip(d[b]);
    FlagRoundTrip(d[c]);
    NulStops(Bytes(d[b]), 2, names[0]);
    HoldsText(Bytes(d[b]), 2, names[0]);
    assert FateAt(d, c, d[a], names[0], 0) == Match && InodeAt(d, c, d[a], 1) == d[b];
    ComponentEnding(d, d[a], d[a], names, c, 0);
  }

  // A file whose first block starts with zeros holds the walk for ever.
  lemma EndlessFile(d: Image, s: Shape, a: nat, names: seq<seq<byte>>)
    requires WF(d, s) && a in s.nodes && s.nodes[a].FileN? && names != [] && names[0] != [] && 0 !in names[0]
    requires var c := InodeFor(d, s, a).start;
             c < MAX_BLOCK && d[c].Data? && forall i :: 0 <= i < 31 ==> d[c].bytes[i] == 0
    ensures PathEnding(d, InodeFor(d, s, a), InodeFor(d, s, a), names) == Endless
  {
    NodeFacts(d, s, a);
    InodeRoundTrip(d[a]);
    ThroughFile(d, d[a].start, d[a], names[0]);
  }
}
