// The file system as a machine on trees: what each call of fs.c does to the directory tree, to
// the number of free blocks and to the number of leaked ones, and the laws of that machine.

module FsSpec {
  import opened CString
  import opened Blocks
  import opened DirTree
  import opened Options

  datatype FsState = FsState(tree: Tree, free: nat, leaked: nat)

  // Done: the call returns this code in this state.  Corrupt: the call runs past the end of the
  // disk or removes the root, and what it leaves is no file system.  Fault: it reads through NULL.
  datatype Outcome = Done(st: FsState, code: int) | Corrupt | Fault

  // The paths find_inode can follow: "/" itself, or at least one component and no file on the way.
  predicate GoodPath(t: Tree, path: text) {
    path == DELIM || (Components(path) != [] && Clean(t, Components(path)))
  }

  function Find(t: Tree, path: text): Option<seq<nat>> {
    Resolve(t, Components(path))
  }

  predicate HasEntry(kids: seq<Tree>, wantDir: bool, name: seq<byte>) {
    exists i :: 0 <= i < |kids| && kids[i].Dir? == wantDir && kids[i].name == name
  }

  // ---------- The calls ----------

  // fs_create and fs_mkdir differ in the record they add and in a missing parent.
  function Add(st: FsState, path: text, leaf: Tree): Outcome {
    match Find(st.tree, path)
    case None => if leaf.Dir? then Fault else Done(st, -1)
    case Some(ip) =>
      var t := Get(st.tree, ip);
      if t.File? then Done(st, -1)
      else if HasEntry(t.kids, leaf.Dir?, leaf.name) then Done(st, -2)
      else if st.free < 2 then Done(FsState(st.tree, 0, st.leaked + st.free), -3)
      else if st.free == 2 then Corrupt
      else Done(FsState(Put(st.tree, ip, Dir(t.name, t.kids + [leaf])), st.free - 3, st.leaked), 0)
  }

  function Create(st: FsState, path: text, name: text): Outcome {
    Add(st, path, File(name, [], 1))
  }

  function Mkdir(st: FsState, path: text, name: text): Outcome {
    Add(st, path, Dir(name, []))
  }

  function BlocksFor(size: nat): nat {
    (size + DATA_SIZE - 1) / DATA_SIZE
  }

  function Extra(t: Tree, size: nat): nat
    requires t.File?
  {
    if BlocksFor(size) > t.blocks then BlocksFor(size) - t.blocks else 0
  }

  function Write(st: FsState, path: text, data: seq<byte>): Outcome {
    match Find(st.tree, path)
    case None => Done(st, -1)
    case Some(ip) =>
      var t := Get(st.tree, ip);
      if t.Dir? then Done(st, -1)
      else
        var extra := Extra(t, |data|);
        if extra > st.free then Corrupt
        else Done(FsState(Put(st.tree, ip, File(t.name, data, t.blocks + extra)),
                          st.free - extra, st.leaked), 0)
  }

  // The bytes fs_read delivers, or None for its error return.
  function Read(st: FsState, path: text, n: nat): Option<seq<byte>> {
    match Find(st.tree, path)
    case None => None
    case Some(ip) =>
      var t := Get(st.tree, ip);
      if t.Dir? then None
      else Some(if n < |t.bytes| then t.bytes[..n] else t.bytes)
  }

  // The tree without the entry at ip.
  function Drop(t: Tree, ip: seq<nat>): Tree
    requires ip != [] && ValidPath(t, ip)
  {
    var up, j := ip[..|ip| - 1], ip[|ip| - 1];
    ParentOf(t, ip);
    var d := Get(t, up);
    Put(t, up, Dir(d.name, Without(d.kids, j)))
  }

  lemma ParentOf(t: Tree, ip: seq<nat>)
    requires ip != [] && ValidPath(t, ip)
    ensures var up, j := ip[..|ip| - 1], ip[|ip| - 1];
            ValidPath(t, up) && Get(t, up).Dir? && j < |Get(t, up).kids|
            && Get(t, ip) == Get(t, up).kids[j]
    decreases |ip|
  {
    if |ip| > 1 {
      ParentOf(t.kids[ip[0]], ip[1..]);
      assert ip[1..][..|ip| - 2] == ip[..|ip| - 1][1..];
    }
  }

  function Rm(st: FsState, path: text): Outcome {
    match Find(st.tree, path)
    case None => Done(st, -1)
    case Some(ip) =>
      var t := Get(st.tree, ip);
      if t.Dir? then Done(st, -1)
      else if ip == [] then Corrupt
      else Done(FsState(Drop(st.tree, ip), st.free + t.blocks + 2, st.leaked), 0)
  }

  // The sentinel block of the removed directory stays allocated.
  function Rmdir(st: FsState, path: text): Outcome {
    match Find(st.tree, path)
    case None => Done(st, -1)
    case Some(ip) =>
      var t := Get(st.tree, ip);
      if t.File? then Done(st, -1)
      else if t.kids != [] then Done(st, -2)
      else if ip == [] then Corrupt
      else Done(FsState(Drop(st.tree, ip), st.free + 2, st.leaked + 1), 0)
  }

  // A buffer whose length is a size_t.
  type Payload = s: seq<byte> | |s| < 0x1_0000_0000_0000_0000

  datatype Op =
    | OpCreate(path: text, name: Name)
    | OpMkdir(path: text, name: Name)
    | OpWrite(path: text, data: Payload)
    | OpRm(path: text)
    | OpRmdir(path: text)

  function Step(st: FsState, op: Op): Outcome {
    match op
    case OpCreate(p, n) => Create(st, p, n)
    case OpMkdir(p, n) => Mkdir(st, p, n)
    case OpWrite(p, d) => Write(st, p, d)
    case OpRm(p) => Rm(st, p)
    case OpRmdir(p) => Rmdir(st, p)
  }

  // Every call of the run is on a good path and ends Done.
  predicate Runs(st: FsState, ops: seq<Op>)
    decreases |ops|
  {
    ops == [] ||
    (GoodPath(st.tree, ops[0].path) && Step(st, ops[0]).Done? && Runs(Step(st, ops[0]).st, ops[1..]))
  }

  function After(st: FsState, ops: seq<Op>): FsState
    requires Runs(st, ops)
    decreases |ops|
  {
    if ops == [] then st else After(Step(st, ops[0]).st, ops[1..])
  }

  function Codes(st: FsState, ops: seq<Op>): seq<int>
    requires Runs(st, ops)
    decreases |ops|
  {
    if ops == [] then [] else [Step(st, ops[0]).code] + Codes(Step(st, ops[0]).st, ops[1..])
  }

  // The file system fs_init makes: an empty root on a disk with `free` blocks to spare.
  function Empty(free: nat, leaked: nat): FsState {
    FsState(Dir([], []), free, leaked)
  }

  // ---------- Conservation of blocks ----------

  function Total(st: FsState): nat {
    Space(st.tree) + st.free + st.leaked
  }

  lemma SpaceDrop(t: Tree, ip: seq<nat>)
    requires ip != [] && ValidPath(t, ip)
    ensures Space(Drop(t, ip)) == Space(t) - Space(Get(t, ip)) - 1
  {
    ParentOf(t, ip);
    var up, j := ip[..|ip| - 1], ip[|ip| - 1];
    var d := Get(t, up);
    SpacePut(t, up, Dir(d.name, Without(d.kids, j)));
    SpaceAllWithout(d.kids, j);
  }

  lemma SpaceAdd(t: Tree, leaf: Tree)
    requires t.Dir?
    ensures Space(Dir(t.name, t.kids + [leaf])) == Space(t) + Space(leaf) + 1
  {
    SpaceAllConcat(t.kids, [leaf]);
    assert SpaceAll([leaf]) == Space(leaf);
  }

  // No call makes or loses a block: reachable, free and leaked blocks always add up, and only a
  // failed create or mkdir and a successful rmdir leak.
  lemma StepConserves(st: FsState, op: Op)
    requires Step(st, op).Done?
    ensures var r := Step(st, op);
            Total(r.st) == Total(st)
            && r.st.leaked == st.leaked
               + (if op.OpRmdir? && r.code == 0 then 1
                  else if (op.OpCreate? || op.OpMkdir?) && r.code == -3 then st.free else 0)
  {
    var f := Find(st.tree, op.path);
    if f.Some? {
      var ip := f.value;
      var t := Get(st.tree, ip);
      match op {
        case OpCreate(_, n) =>
          if t.Dir? {
            SpaceAdd(t, File(n, [], 1));
            SpacePut(st.tree, ip, Dir(t.name, t.kids + [File(n, [], 1)]));
          }
        case OpMkdir(_, n) =>
          if t.Dir? {
            SpaceAdd(t, Dir(n, []));
            SpacePut(st.tree, ip, Dir(t.name, t.kids + [Dir(n, [])]));
          }
        case OpWrite(_, d) =>
          if t.File? {
            SpacePut(st.tree, ip, File(t.name, d, t.blocks + Extra(t, |d|)));
          }
        case OpRm(_) => if ip != [] { SpaceDrop(st.tree, ip); }
        case OpRmdir(_) => if ip != [] { SpaceDrop(st.tree, ip); }
      }
    }
  }

  lemma {:induction false} RunConserves(st: FsState, ops: seq<Op>)
    requires Runs(st, ops)
    ensures Total(After(st, ops)) == Total(st)
    decreases |ops|
  {
    if ops != [] {
      StepConserves(st, ops[0]);
      RunConserves(Step(st, ops[0]).st, ops[1..]);
    }
  }

  // ---------- Write then read ----------

  // What was written is what is read, for any old and new length.
  lemma WriteRead(st: FsState, path: text, data: seq<byte>, n: nat)
    requires Write(st, path, data).Done? && Write(st, path, data).code == 0
    ensures Read(Write(st, path, data).st, path, n) == Some(data[..if n < |data| then n else |data|])
  {
    var ip := Find(st.tree, path).value;
    var t := Get(st.tree, ip);
    var u := File(t.name, data, t.blocks + Extra(t, |data|));
    ResolveAfterFilePut(st.tree, ip, u, Components(path));
    PutValid(st.tree, ip, u);
    assert data[..|data|] == data;
  }

  // Every path that leads elsewhere reads as before.
  lemma WriteElsewhere(st: FsState, path: text, data: seq<byte>, other: text, n: nat)
    requires Write(st, path, data).Done?
    requires Find(st.tree, other) != Find(st.tree, path)
    ensures Read(Write(st, path, data).st, other, n) == Read(st, other, n)
  {
    if Write(st, path, data).code == 0 {
      var ip := Find(st.tree, path).value;
      var t := Get(st.tree, ip);
      FoundElsewhere(st.tree, ip, File(t.name, data, t.blocks + Extra(t, |data|)), Components(other));
      ReadsSame(st, Write(st, path, data).st, other, n);
    }
  }

  // The same file, or a directory as before, reads the same.
  predicate SameTarget(t: Tree, u: Tree, names: seq<seq<byte>>) {
    Resolve(u, names) == Resolve(t, names)
    && (Resolve(t, names).Some? ==>
          var q := Resolve(t, names).value;
          Get(u, q) == Get(t, q) || (Get(t, q).Dir? && Get(u, q).Dir?))
  }

  lemma ReadsSame(st: FsState, st': FsState, path: text, n: nat)
    requires SameTarget(st.tree, st'.tree, Components(path))
    ensures Read(st', path, n) == Read(st, path, n)
  {
  }

  // A path that leads elsewhere leads to the same file, or to a directory as before.
  lemma FoundElsewhere(t: Tree, ip: seq<nat>, u: Tree, names: seq<seq<byte>>)
    requires ValidPath(t, ip) && Get(t, ip).File? && u.File? && u.name == Get(t, ip).name
    requires Resolve(t, names) != Some(ip)
    ensures SameTarget(t, Put(t, ip, u), names)
  {
    ResolveAfterFilePut(t, ip, u, names);
    var q := Resolve(t, names);
    if q.Some? { SameElsewhere(t, ip, u, q.value); }
  }

  // Away from a replaced file, files stay the same and directories stay directories.
  lemma SameElsewhere(t: Tree, ip: seq<nat>, u: Tree, q: seq<nat>)
    requires ValidPath(t, ip) && Get(t, ip).File? && ValidPath(t, q) && q != ip
    ensures ValidPath(Put(t, ip, u), q)
    ensures Get(Put(t, ip, u), q) == Get(t, q) || (Get(t, q).Dir? && Get(Put(t, ip, u), q).Dir?)
  {
  }

  // ---------- Add then remove ----------

  function Under(path: text, name: text): text {
    path + DELIM + name
  }

  // The path of a fresh entry resolves to the end of its directory's list.
  lemma FindAdded(st: FsState, path: text, leaf: Tree)
    requires GoodPath(st.tree, path) && PlainName(leaf.name)
    requires Add(st, path, leaf).Done? && Add(st, path, leaf).code == 0
    requires var kids := Get(st.tree, Find(st.tree, path).value).kids;
             FirstNamed(kids, leaf.name) == |kids|
    ensures var ip := Find(st.tree, path).value;
            var t' := Add(st, path, leaf).st.tree;
            var full := ip + [|Get(st.tree, ip).kids|];
            GoodPath(t', Under(path, leaf.name)) && Find(t', Under(path, leaf.name)) == Some(full)
            && ValidPath(t', full) && Get(t', full) == leaf && Drop(t', full) == st.tree
  {
    var cs := Components(path);
    var ip := Find(st.tree, path).value;
    var d := Get(st.tree, ip);
    var d' := Dir(d.name, d.kids + [leaf]);
    var t' := Put(st.tree, ip, d');
    SplitAppend(path, leaf.name);
    ResolveAfterGrow(st.tree, ip, leaf, cs);
    PutValid(st.tree, ip, d');
    ResolveConcat(t', cs, [leaf.name]);
    FirstNamedIs(d'.kids, leaf.name, |d.kids|);
    var full := ip + [|d.kids|];
    ResolveOne(d', leaf.name);
    PathConcat(t', ip, [|d.kids|]);
    assert Get(d', [|d.kids|]) == leaf;
    assert full[..|full| - 1] == ip;
    assert Without(d'.kids, |d.kids|) == d.kids;
    PutPut(st.tree, ip, d', d);
    PutGet(st.tree, ip);
    CleanAppend(t', cs, leaf.name);
  }

  lemma {:induction false} CleanAppend(t: Tree, cs: seq<seq<byte>>, n: seq<byte>)
    requires Resolve(t, cs).Some? && Get(t, Resolve(t, cs).value).Dir?
    requires Clean(Get(t, Resolve(t, cs).value), [n])
    ensures Clean(t, cs + [n])
    decreases |cs|
  {
    if cs == [] {
      assert cs + [n] == [n];
    } else {
      var i := FirstNamed(t.kids, cs[0]);
      var r := Resolve(t.kids[i], cs[1..]);
      assert ([i] + r.value)[1..] == r.value;
      assert (cs + [n])[1..] == cs[1..] + [n];
      CleanAppend(t.kids[i], cs[1..], n);
    }
  }

  // Appending an entry to the directory a path leads to does not redirect that path.
  lemma {:induction false} ResolveAfterGrow(t: Tree, ip: seq<nat>, leaf: Tree, cs: seq<seq<byte>>)
    requires Resolve(t, cs) == Some(ip) && Get(t, ip).Dir?
    ensures var d := Get(t, ip);
            Resolve(Put(t, ip, Dir(d.name, d.kids + [leaf])), cs) == Some(ip)
    decreases |cs|
  {
    if cs != [] {
      var d := Get(t, ip);
      var d' := Dir(d.name, d.kids + [leaf]);
      var i := FirstNamed(t.kids, cs[0]);
      var r := Resolve(t.kids[i], cs[1..]);
      assert ip[0] == i && ip[1..] == r.value;
      ResolveAfterGrow(t.kids[i], ip[1..], leaf, cs[1..]);
      var t' := Put(t, ip, d');
      assert ip[1..] == [] ==> t.kids[i] == d && t'.kids[i] == d';
      assert forall j :: 0 <= j <= i ==> t'.kids[j].name == t.kids[j].name;
      FirstNamedIs(t'.kids, cs[0], i);
      assert ip == [i] + ip[1..];
    }
  }

  // Creating a fresh name and removing it again is the identity, free and leaked counts included.
  lemma CreateThenRm(st: FsState, path: text, name: text)
    requires GoodPath(st.tree, path) && PlainName(name)
    requires Create(st, path, name).Done? && Create(st, path, name).code == 0
    requires var kids := Get(st.tree, Find(st.tree, path).value).kids;
             FirstNamed(kids, name) == |kids|
    ensures Rm(Create(st, path, name).st, Under(path, name)) == Done(st, 0)
  {
    FindAdded(st, path, File(name, [], 1));
  }

  // Making a fresh directory and removing it again restores the tree but leaks one block.
  lemma MkdirThenRmdir(st: FsState, path: text, name: text)
    requires GoodPath(st.tree, path) && PlainName(name)
    requires Mkdir(st, path, name).Done? && Mkdir(st, path, name).code == 0
    requires var kids := Get(st.tree, Find(st.tree, path).value).kids;
             FirstNamed(kids, name) == |kids|
    ensures Rmdir(Mkdir(st, path, name).st, Under(path, name))
         == Done(FsState(st.tree, st.free - 1, st.leaked + 1), 0)
  {
    FindAdded(st, path, Dir(name, []));
  }

  // The directory at path has an entry called name, of the other kind only, and there is room for one more.
  predicate TakenByOther(st: FsState, path: text, isDir: bool, name: text) {
    st.free >= 3
    && match Find(st.tree, path)
       case None => false
       case Some(ip) =>
         var d := Get(st.tree, ip);
         d.Dir? && FirstNamed(d.kids, name) < |d.kids| && !HasEntry(d.kids, isDir, name)
  }

  // Such a name is accepted, and the older entry keeps the path.
  lemma FindShadowing(st: FsState, path: text, leaf: Tree)
    requires GoodPath(st.tree, path) && PlainName(leaf.name) && TakenByOther(st, path, leaf.Dir?, leaf.name)
    ensures Add(st, path, leaf).Done? && Add(st, path, leaf).code == 0
    ensures var ip := Find(st.tree, path).value;
            var kids := Get(st.tree, ip).kids;
            var t', older := Add(st, path, leaf).st.tree, ip + [FirstNamed(kids, leaf.name)];
            Find(t', Under(path, leaf.name)) == Some(older) && ValidPath(t', older)
            && Get(t', older) == kids[FirstNamed(kids, leaf.name)] && Get(t', older).Dir? != leaf.Dir?
  {
    var cs := Components(path);
    var ip := Find(st.tree, path).value;
    var d := Get(st.tree, ip);
    var d' := Dir(d.name, d.kids + [leaf]);
    var t' := Put(st.tree, ip, d');
    SplitAppend(path, leaf.name);
    ResolveAfterGrow(st.tree, ip, leaf, cs);
    PutValid(st.tree, ip, d');
    ResolveConcat(t', cs, [leaf.name]);
    var i := FirstNamed(d.kids, leaf.name);
    FirstNamedIs(d'.kids, leaf.name, i);
    ResolveOne(d', leaf.name);
    PathConcat(t', ip, [i]);
    assert Get(d', [i]) == d.kids[i];
    assert d.kids[i].name == leaf.name && !HasEntry(d.kids, leaf.Dir?, leaf.name);
  }

  // A file whose name a directory has is created, but its path leads to the directory: rm of it fails.
  lemma Shadowed(st: FsState, path: text, name: text)
    requires GoodPath(st.tree, path) && PlainName(name) && TakenByOther(st, path, false, name)
    ensures var st' := Create(st, path, name).st;
            var ip := Find(st.tree, path).value;
            var kids := Get(st.tree, ip).kids;
            && Create(st, path, name) == Done(st', 0)
            && Find(st'.tree, Under(path, name)) == Some(ip + [FirstNamed(kids, name)])
            && Rm(st', Under(path, name)) == Done(st', -1)
  {
    FindShadowing(st, path, File(name, [], 1));
  }

  // A directory whose name a file has is made, but its path leads to the file: rmdir of it fails.
  lemma ShadowedDir(st: FsState, path: text, name: text)
    requires GoodPath(st.tree, path) && PlainName(name) && TakenByOther(st, path, true, name)
    ensures var st' := Mkdir(st, path, name).st;
            var ip := Find(st.tree, path).value;
            var kids := Get(st.tree, ip).kids;
            && Mkdir(st, path, name) == Done(st', 0)
            && Find(st'.tree, Under(path, name)) == Some(ip + [FirstNamed(kids, name)])
            && Rmdir(st', Under(path, name)) == Done(st', -1)
  {
    FindShadowing(st, path, Dir(name, []));
  }
}
