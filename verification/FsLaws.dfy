// What the callers of fs.c get, said of the tree alone: when each code is returned, and what has changed then.

module FsLaws {
  import opened CString
  import opened Blocks
  import opened DirTree
  import opened FsSpec
  import opened Options

  // ---------- Where a path leads ----------

  // Entry i is the first of directory d with this name.
  predicate IsFirst(d: Tree, name: seq<byte>, i: nat) {
    d.Dir? && i < |d.kids| && d.kids[i].name == name && forall j :: 0 <= j < i ==> d.kids[j].name != name
  }

  // From the root of t, entry by entry, the names lead along ip.
  ghost predicate Leads(t: Tree, names: seq<seq<byte>>, ip: seq<nat>) {
    |ip| == |names| && ValidPath(t, ip)
    && forall k :: 0 <= k < |ip| ==> ValidPath(t, ip[..k]) && IsFirst(Get(t, ip[..k]), names[k], ip[k])
  }

  lemma {:induction false} LeadsDown(t: Tree, names: seq<seq<byte>>, ip: seq<nat>)
    requires names != [] && ip != []
    ensures Leads(t, names, ip) <==> IsFirst(t, names[0], ip[0]) && Leads(t.kids[ip[0]], names[1..], ip[1..])
  {
    if |ip| == |names| && ValidPath(t, ip) {
      var kid, down := t.kids[ip[0]], ip[1..];
      forall k | 0 <= k < |down| ensures ip[..k + 1][1..] == down[..k] && ip[..k + 1][0] == ip[0] { }
      if Leads(t, names, ip) {
        assert ip[..0] == [] && IsFirst(Get(t, ip[..0]), names[0], ip[0]);
        forall k | 0 <= k < |down|
          ensures ValidPath(kid, down[..k]) && IsFirst(Get(kid, down[..k]), names[1..][k], down[k])
        {
          assert IsFirst(Get(t, ip[..k + 1]), names[k + 1], ip[k + 1]);
        }
      }
      if IsFirst(t, names[0], ip[0]) && Leads(kid, names[1..], down) {
        forall k | 0 <= k < |ip| ensures ValidPath(t, ip[..k]) && IsFirst(Get(t, ip[..k]), names[k], ip[k]) {
          if k > 0 { assert IsFirst(Get(kid, down[..k - 1]), names[1..][k - 1], down[k - 1]); }
        }
      }
    }
  }

  // Looking up finds where the names lead, and nothing else.
  lemma {:induction false} ResolveExactly(t: Tree, names: seq<seq<byte>>, ip: seq<nat>)
    ensures Resolve(t, names) == Some(ip) <==> Leads(t, names, ip)
    decreases |names|
  {
    if names == [] {
      assert Leads(t, names, []);
    } else if ip != [] {
      LeadsDown(t, names, ip);
      if t.Dir? && ip[0] < |t.kids| { FirstExactly(t, names[0], ip[0]); }
      if IsFirst(t, names[0], ip[0]) {
        ResolveExactly(t.kids[ip[0]], names[1..], ip[1..]);
        assert [ip[0]] + ip[1..] == ip;
      }
    }
  }

  lemma FirstExactly(d: Tree, name: seq<byte>, i: nat)
    requires d.Dir? && i < |d.kids|
    ensures IsFirst(d, name, i) <==> i == FirstNamed(d.kids, name)
  {
    if IsFirst(d, name, i) { FirstNamedIs(d.kids, name, i); }
  }

  ghost predicate DirAt(t: Tree, path: text) {
    exists ip :: Leads(t, Components(path), ip) && Get(t, ip).Dir?
  }

  ghost predicate FileAt(t: Tree, path: text) {
    exists ip :: Leads(t, Components(path), ip) && Get(t, ip).File?
  }

  // The directory there has an entry of this kind and name.
  ghost predicate EntryAt(t: Tree, path: text, isDir: bool, name: text) {
    exists ip, i :: Leads(t, Components(path), ip) && Get(t, ip).Dir? && 0 <= i < |Get(t, ip).kids|
                    && Get(t, ip).kids[i].Dir? == isDir && Get(t, ip).kids[i].name == name
  }

  // A path leads to one place.
  lemma OnePlace(t: Tree, path: text, ip: seq<nat>)
    ensures Find(t, path) == Some(ip) <==> Leads(t, Components(path), ip)
    ensures Leads(t, Components(path), ip) ==> forall q :: Leads(t, Components(path), q) ==> q == ip
  {
    ResolveExactly(t, Components(path), ip);
    forall q | Leads(t, Components(path), q) ensures Find(t, path) == Some(q) {
      ResolveExactly(t, Components(path), q);
    }
  }

  lemma Places(t: Tree, path: text)
    ensures DirAt(t, path) <==> Find(t, path).Some? && Get(t, Find(t, path).value).Dir?
    ensures FileAt(t, path) <==> Find(t, path).Some? && Get(t, Find(t, path).value).File?
    ensures Find(t, path).Some? ==> Leads(t, Components(path), Find(t, path).value)
  {
    var r := Find(t, path);
    if r.Some? { OnePlace(t, path, r.value); }
    forall q | Leads(t, Components(path), q) ensures r == Some(q) { OnePlace(t, path, q); }
  }

  lemma Entries(t: Tree, path: text, isDir: bool, name: text)
    requires DirAt(t, path) && Find(t, path).Some? && Get(t, Find(t, path).value).Dir?
    ensures var kids := Get(t, Find(t, path).value).kids;
            EntryAt(t, path, isDir, name)
            <==> exists i :: 0 <= i < |kids| && kids[i].Dir? == isDir && kids[i].name == name
  {
    OnePlace(t, path, Find(t, path).value);
  }

  // ---------- What has changed ----------

  // Apart from what is at ip, the trees are the same.
  ghost predicate OnlyAt(t: Tree, t': Tree, ip: seq<nat>) {
    forall q :: ValidPath(t, q) && !(ip <= q) ==>
      ValidPath(t', q)
      && if q < ip then SameNode(Get(t, q), Get(t', q)) else Get(t', q) == Get(t, q)
  }

  predicate SameNode(a: Tree, b: Tree) { a.Dir? && b.Dir? && a.name == b.name && |a.kids| == |b.kids| }

  lemma {:induction false} PutOnly(t: Tree, ip: seq<nat>, u: Tree, q: seq<nat>)
    requires ValidPath(t, ip) && ValidPath(t, q) && !(ip <= q)
    ensures ValidPath(Put(t, ip, u), q)
    ensures var w := Get(Put(t, ip, u), q); if q < ip then SameNode(Get(t, q), w) else w == Get(t, q)
    decreases |ip|
  {
    if q != [] && q[0] == ip[0] {
      PutOnly(t.kids[ip[0]], ip[1..], u, q[1..]);
      assert q == [q[0]] + q[1..] && ip == [ip[0]] + ip[1..];
    }
  }

  lemma PutIs(t: Tree, ip: seq<nat>, u: Tree)
    requires ValidPath(t, ip)
    ensures ValidPath(Put(t, ip, u), ip) && Get(Put(t, ip, u), ip) == u && OnlyAt(t, Put(t, ip, u), ip)
  {
    PutValid(t, ip, u);
    forall q | ValidPath(t, q) && !(ip <= q)
      ensures ValidPath(Put(t, ip, u), q)
      ensures var w := Get(Put(t, ip, u), q); if q < ip then SameNode(Get(t, q), w) else w == Get(t, q)
    {
      PutOnly(t, ip, u, q);
    }
  }

  // The node to which the path leads has been changed to u, and nothing else.
  ghost predicate ChangedTo(t: Tree, t': Tree, ip: seq<nat>, u: Tree) {
    ValidPath(t', ip) && Get(t', ip) == u && OnlyAt(t, t', ip)
  }

  // The directory to which the path leads has one entry more, the last.
  ghost predicate Appended(st: FsState, st': FsState, path: text, leaf: Tree) {
    st'.free == st.free - 3 && st'.leaked == st.leaked
    && forall ip :: Leads(st.tree, Components(path), ip) && Get(st.tree, ip).Dir? ==>
         var d := Get(st.tree, ip);
         ChangedTo(st.tree, st'.tree, ip, Dir(d.name, d.kids + [leaf]))
  }

  // The file to which the path leads has these bytes, in as many blocks as they need or as it had.
  ghost predicate NewContents(st: FsState, st': FsState, path: text, data: seq<byte>, need: nat) {
    st'.leaked == st.leaked
    && forall ip :: Leads(st.tree, Components(path), ip) && Get(st.tree, ip).File? ==>
         var f := Get(st.tree, ip);
         var blocks := if need > f.blocks then need else f.blocks;
         st'.free == st.free - (blocks - f.blocks)
         && ChangedTo(st.tree, st'.tree, ip, File(f.name, data, blocks))
  }

  // The entry to which the path leads has gone from its directory, and the others have kept their order.
  ghost predicate Removed(t: Tree, t': Tree, path: text) {
    forall ip :: Leads(t, Components(path), ip) && ip != [] ==>
      var up, j := ip[..|ip| - 1], ip[|ip| - 1];
      ValidPath(t, up)
      && var d := Get(t, up);
         d.Dir? && j < |d.kids| && ChangedTo(t, t', up, Dir(d.name, d.kids[..j] + d.kids[j + 1..]))
  }

  // ---------- The calls ----------

  // As many blocks as so many bytes need.
  predicate Fills(blocks: nat, size: nat) {
    size <= DATA_SIZE * blocks && (blocks > 0 ==> DATA_SIZE * (blocks - 1) < size)
  }

  lemma Needs(size: nat)
    ensures Fills(BlocksFor(size), size)
    ensures forall blocks :: Fills(blocks, size) ==> blocks == BlocksFor(size)
  {
  }

  lemma CreateExactly(st: FsState, path: text, name: text)
    ensures var o := Create(st, path, name);
            var d, taken := DirAt(st.tree, path), EntryAt(st.tree, path, false, name);
            && (o.Done? && o.code == 0 <==> d && !taken && st.free >= 3)
            && (o == Done(st, -1) <==> !d)
            && (o == Done(st, -2) <==> d && taken)
            && (o == Done(FsState(st.tree, 0, st.leaked + st.free), -3) <==> d && !taken && st.free < 2)
            && (o == Corrupt <==> d && !taken && st.free == 2)
            && (o.Done? && o.code == 0 ==> Appended(st, o.st, path, File(name, [], 1)))
  {
    AddExactly(st, path, File(name, [], 1));
  }

  lemma AddExactly(st: FsState, path: text, leaf: Tree)
    ensures var o := Add(st, path, leaf);
            var d, taken := DirAt(st.tree, path), EntryAt(st.tree, path, leaf.Dir?, leaf.name);
            && (o.Done? && o.code == 0 <==> d && !taken && st.free >= 3)
            && (o == Done(st, -1) <==> !d && (leaf.File? || FileAt(st.tree, path)))
            && (o == Fault <==> leaf.Dir? && !d && !FileAt(st.tree, path))
            && (o == Done(st, -2) <==> d && taken)
            && (o == Done(FsState(st.tree, 0, st.leaked + st.free), -3) <==> d && !taken && st.free < 2)
            && (o == Corrupt <==> d && !taken && st.free == 2)
            && (o.Done? && o.code == 0 ==> Appended(st, o.st, path, leaf))
  {
    Places(st.tree, path);
    if DirAt(st.tree, path) {
      Entries(st.tree, path, leaf.Dir?, leaf.name);
      var ip := Find(st.tree, path).value;
      var d := Get(st.tree, ip);
      OnePlace(st.tree, path, ip);
      PutIs(st.tree, ip, Dir(d.name, d.kids + [leaf]));
    }
  }

  lemma MkdirExactly(st: FsState, path: text, name: text)
    ensures var o := Mkdir(st, path, name);
            var d, taken := DirAt(st.tree, path), EntryAt(st.tree, path, true, name);
            && (o.Done? && o.code == 0 <==> d && !taken && st.free >= 3)
            && (o == Done(st, -1) <==> FileAt(st.tree, path))
            && (o == Fault <==> !d && !FileAt(st.tree, path))
            && (o == Done(st, -2) <==> d && taken)
            && (o == Done(FsState(st.tree, 0, st.leaked + st.free), -3) <==> d && !taken && st.free < 2)
            && (o == Corrupt <==> d && !taken && st.free == 2)
            && (o.Done? && o.code == 0 ==> Appended(st, o.st, path, Dir(name, [])))
  {
    AddExactly(st, path, Dir(name, []));
    Places(st.tree, path);
  }

  // There is room for so many blocks in the file to which the path leads.
  ghost predicate Fits(st: FsState, path: text, need: nat) {
    exists ip :: Leads(st.tree, Components(path), ip) && Get(st.tree, ip).File?
                 && need <= Get(st.tree, ip).blocks + st.free
  }

  lemma WriteExactly(st: FsState, path: text, data: seq<byte>, need: nat)
    requires Fills(need, |data|)
    ensures var o := Write(st, path, data);
            && (o == Done(st, -1) <==> !FileAt(st.tree, path))
            && (o.Done? && o.code == 0 <==> Fits(st, path, need))
            && (o == Corrupt <==> FileAt(st.tree, path) && !Fits(st, path, need))
            && (o.Done? && o.code == 0 ==> NewContents(st, o.st, path, data, need))
  {
    Needs(|data|);
    Places(st.tree, path);
    if FileAt(st.tree, path) {
      var ip := Find(st.tree, path).value;
      var f := Get(st.tree, ip);
      OnePlace(st.tree, path, ip);
      PutIs(st.tree, ip, File(f.name, data, f.blocks + Extra(f, |data|)));
    }
  }

  lemma ReadExactly(st: FsState, path: text, n: nat)
    ensures Read(st, path, n) == None <==> !FileAt(st.tree, path)
    ensures Read(st, path, n).Some? ==>
              forall ip :: Leads(st.tree, Components(path), ip) && Get(st.tree, ip).File? ==>
                var bytes := Get(st.tree, ip).bytes;
                Read(st, path, n).value <= bytes
                && |Read(st, path, n).value| == if n < |bytes| then n else |bytes|
  {
    Places(st.tree, path);
    if FileAt(st.tree, path) { OnePlace(st.tree, path, Find(st.tree, path).value); }
  }

  lemma DropIs(t: Tree, path: text)
    requires Find(t, path).Some? && Find(t, path).value != []
    ensures Removed(t, Drop(t, Find(t, path).value), path)
  {
    var ip := Find(t, path).value;
    var up, j := ip[..|ip| - 1], ip[|ip| - 1];
    ParentOf(t, ip);
    OnePlace(t, path, ip);
    var d := Get(t, up);
    assert Without(d.kids, j) == d.kids[..j] + d.kids[j + 1..];
    PutIs(t, up, Dir(d.name, Without(d.kids, j)));
  }

  // Every block of the file comes free, and its inode and its list node.
  lemma RmExactly(st: FsState, path: text)
    requires st.tree.Dir?
    ensures var o := Rm(st, path);
            && (o == Done(st, -1) <==> !FileAt(st.tree, path))
            && (o.Done? && o.code == 0 <==> FileAt(st.tree, path))
            && (o.Done? && o.code == 0 ==> Removed(st.tree, o.st.tree, path) && o.st.leaked == st.leaked)
            && (o.Done? && o.code == 0 ==>
                  forall ip :: Leads(st.tree, Components(path), ip) && Get(st.tree, ip).File? ==>
                    o.st.free == st.free + Get(st.tree, ip).blocks + 2)
  {
    Places(st.tree, path);
    if FileAt(st.tree, path) {
      var ip := Find(st.tree, path).value;
      OnePlace(st.tree, path, ip);
      assert ip != [];
      DropIs(st.tree, path);
    }
  }

  ghost predicate EmptyDirAt(t: Tree, path: text) {
    exists ip :: Leads(t, Components(path), ip) && Get(t, ip).Dir? && Get(t, ip).kids == []
  }

  // The inode and the list node come free; the sentinel leaks. An empty root is lost.
  lemma RmdirExactly(st: FsState, path: text)
    ensures var o := Rmdir(st, path);
            && (o == Done(st, -1) <==> !DirAt(st.tree, path))
            && (o == Done(st, -2) <==> DirAt(st.tree, path) && !EmptyDirAt(st.tree, path))
            && (o.Done? && o.code == 0 <==> EmptyDirAt(st.tree, path) && Components(path) != [])
            && (o == Corrupt <==> EmptyDirAt(st.tree, path) && Components(path) == [])
            && (o.Done? && o.code == 0 ==>
                  Removed(st.tree, o.st.tree, path) && o.st.free == st.free + 2 && o.st.leaked == st.leaked + 1)
  {
    Places(st.tree, path);
    if DirAt(st.tree, path) {
      var ip := Find(st.tree, path).value;
      OnePlace(st.tree, path, ip);
      if Get(st.tree, ip).kids == [] && ip != [] { DropIs(st.tree, path); }
    }
  }

  // What a call that returns 0 has done.
  lemma StepExactly(st: FsState, op: Op)
    requires st.tree.Dir? && Step(st, op).Done? && Step(st, op).code == 0
    ensures var st' := Step(st, op).st;
            match op
            case OpCreate(path, name) => Appended(st, st', path, File(name, [], 1))
            case OpMkdir(path, name) => Appended(st, st', path, Dir(name, []))
            case OpWrite(path, data) =>
              forall need: nat :: Fills(need, |data|) ==> NewContents(st, st', path, data, need)
            case OpRm(path) => FileAt(st.tree, path) && Removed(st.tree, st'.tree, path)
            case OpRmdir(path) => EmptyDirAt(st.tree, path) && Removed(st.tree, st'.tree, path)
  {
    match op
    case OpCreate(path, name) => CreateExactly(st, path, name);
    case OpMkdir(path, name) => MkdirExactly(st, path, name);
    case OpWrite(path, data) =>
      forall need: nat | Fills(need, |data|) ensures NewContents(st, Step(st, op).st, path, data, need) {
        WriteExactly(st, path, data, need);
      }
    case OpRm(path) => RmExactly(st, path);
    case OpRmdir(path) => RmdirExactly(st, path);
  }
}
