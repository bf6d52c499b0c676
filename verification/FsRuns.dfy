// Whole runs of the file system, from an all-zero disk.

module FsRuns {
  import opened CString
  import opened Blocks
  import opened DirTree
  import opened FsSpec
  import opened Shapes
  import opened FileSystems
  import opened Ranges

  method Call(fs: FileSystem, op: Op) returns (code: int)
    requires fs.Valid() && fs.Answers(op.path) && Step(fs.State(), op).Done?
    modifies fs, fs.dev.blocks
    ensures fs.Valid() && Done(fs.State(), code) == Step(old(fs.State()), op)
  {
    match op
    case OpCreate(p, n) => code := fs.FsCreate(p, n);
    case OpMkdir(p, n) =>
      var r := fs.FsMkdir(p, n);
      code := r.code;
    case OpWrite(p, d) => code := fs.FsWrite(p, d);
    case OpRm(p) => code := fs.FsRm(p);
    case OpRmdir(p) => code := fs.FsRmdir(p);
  }

  method CallGood(fs: FileSystem, op: Op) returns (code: int)
    requires fs.Valid() && GoodPath(fs.State().tree, op.path) && Step(fs.State(), op).Done?
    modifies fs, fs.dev.blocks
    ensures fs.Valid() && Done(fs.State(), code) == Step(old(fs.State()), op)
  {
    fs.GoodAnswers(op.path);
    code := Call(fs, op);
  }

  // Any sequence of calls on paths that meet no file on their way does to the disk what it does to the tree,
  // call by call.
  method Run(fs: FileSystem, ops: seq<Op>) returns (codes: seq<int>)
    requires fs.Valid() && Runs(fs.State(), ops)
    modifies fs, fs.dev.blocks
    ensures fs.Valid() && fs.State() == After(old(fs.State()), ops)
    ensures codes == Codes(old(fs.State()), ops)
  {
    ghost var st := fs.State();
    codes := [];
    var i := 0;
    assert ops[0..] == ops;
    while i < |ops|
      invariant i <= |ops| && fs.Valid() && Runs(fs.State(), ops[i..])
      invariant After(fs.State(), ops[i..]) == After(st, ops)
      invariant codes + Codes(fs.State(), ops[i..]) == Codes(st, ops)
    {
      assert ops[i..][1..] == ops[i + 1..];
      var code := CallGood(fs, ops[i]);
      codes := codes + [code];
      i := i + 1;
    }
  }

  // An all-zero disk has every block but block 0 free.
  lemma AllFree(d: Image)
    requires forall i :: 0 <= i < MAX_BLOCK ==> d[i].Free?
    ensures FreeCount(d) == MAX_BLOCK - 1
  {
    assert FreeSet(d) == Range(1, |d|);
  }

  // From format() and fs_init on: the disk follows the tree, and reachable, free and leaked
  // blocks add up to the disk at every point.
  method Boot(ops: seq<Op>) returns (fs: FileSystem, codes: seq<int>)
    requires Runs(Empty(MAX_BLOCK - 3, 0), ops)
    ensures fs.Valid() && fs.State() == After(Empty(MAX_BLOCK - 3, 0), ops)
    ensures codes == Codes(Empty(MAX_BLOCK - 3, 0), ops)
    ensures Total(fs.State()) == 2047
    ensures |fs.shape.own| == Space(fs.State().tree)
  {
    var dev := new Device();
    AllFree(dev.View());
    fs := new FileSystem(dev);
    var r := fs.FsInit();
    ghost var st := fs.State();
    assert st == Empty(MAX_BLOCK - 3, 0);
    codes := Run(fs, ops);
    RunConserves(st, ops);
    AccountSize(fs.View(), fs.shape);
    assert |fs.shape.own.Keys| == |fs.shape.own|;
  }

  // A good path stays good when a file is written.
  lemma StillGood(st: FsState, path: text, data: seq<byte>, other: text)
    requires GoodPath(st.tree, other) && Write(st, path, data).Done?
    ensures GoodPath(Write(st, path, data).st.tree, other)
  {
    if Write(st, path, data).code == 0 {
      var ip := Find(st.tree, path).value;
      var t := Get(st.tree, ip);
      ResolveAfterFilePut(st.tree, ip, File(t.name, data, t.blocks + Extra(t, |data|)), Components(other));
    }
  }

  method ReadGood(fs: FileSystem, path: text, buffer: array<byte>, n: nat) returns (count: nat)
    requires fs.Valid() && GoodPath(fs.State().tree, path)
    requires n <= buffer.Length && buffer != fs.dev.blocks as object
    modifies buffer
    ensures match Read(fs.State(), path, n)
            case None => count == 0xffff_ffff_ffff_ffff && buffer[..] == old(buffer[..])
            case Some(bytes) =>
              count == |bytes| <= n
              && (forall j :: 0 <= j < count ==> buffer[j] == bytes[j])
              && (forall j :: count <= j < buffer.Length ==> buffer[j] == old(buffer[j]))
  {
    fs.GoodAnswers(path);
    count := fs.FsRead(path, buffer, n);
  }

  method WriteGood(fs: FileSystem, path: text, data: Payload) returns (code: int)
    requires fs.Valid() && GoodPath(fs.State().tree, path) && Write(fs.State(), path, data).Done?
    modifies fs, fs.dev.blocks
    ensures fs.Valid() && Write(old(fs.State()), path, data) == Done(fs.State(), code)
  {
    fs.GoodAnswers(path);
    code := fs.FsWrite(path, data);
  }

  // On the disk: a read after a write delivers the first bytes written, as many as asked for or
  // there are.
  method WriteThenRead(fs: FileSystem, path: text, data: Payload, buffer: array<byte>, n: nat)
    returns (code: int, count: nat)
    requires fs.Valid() && GoodPath(fs.State().tree, path) && Write(fs.State(), path, data).Done?
    requires n <= buffer.Length && buffer != fs.dev.blocks as object
    modifies fs, fs.dev.blocks, buffer
    ensures fs.Valid()
    ensures code == 0 ==>
              count == (if n < |data| then n else |data|)
              && (forall j :: 0 <= j < count ==> buffer[j] == data[j])
              && (forall j :: count <= j < buffer.Length ==> buffer[j] == old(buffer[j]))
  {
    ghost var st := fs.State();
    StillGood(st, path, data, path);
    code := WriteGood(fs, path, data);
    count := ReadGood(fs, path, buffer, n);
    if code == 0 { WriteRead(st, path, data, n); }
  }

  // On the disk: whatever a write does, a path that leads elsewhere reads as before.
  method WriteBetweenReads(fs: FileSystem, path: text, data: Payload, other: text, first: array<byte>,
                           second: array<byte>, n: nat)
    returns (before: nat, after: nat)
    requires fs.Valid() && GoodPath(fs.State().tree, path) && GoodPath(fs.State().tree, other)
    requires Write(fs.State(), path, data).Done? && Find(fs.State().tree, other) != Find(fs.State().tree, path)
    requires n <= first.Length && n <= second.Length && first != second
    requires first != fs.dev.blocks as object && second != fs.dev.blocks as object
    modifies fs, fs.dev.blocks, first, second
    ensures fs.Valid() && before == after
    ensures before <= n && old(Read(fs.State(), other, n)).Some? ==> first[..before] == second[..before]
  {
    ghost var st := fs.State();
    StillGood(st, path, data, other);
    WriteElsewhere(st, path, data, other, n);
    before := ReadGood(fs, other, first, n);
    var code := WriteGood(fs, path, data);
    after := ReadGood(fs, other, second, n);
  }
}
