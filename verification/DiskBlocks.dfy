// The blocks of bio.c on the sectors of virtio.c: block b is sectors 2b and 2b + 1, and what callers
// get through the driver, in any interleaving, is what reads and writes of whole blocks give them.

module DiskBlocks {
  import opened Blocks
  import opened Layout
  import V = VirtioProtocol

  const SECTOR_SIZE := 512

  function DataOf(b: Block): V.Data { V.Data(Bytes(b)[..SECTOR_SIZE], Bytes(b)[SECTOR_SIZE..]) }

  function Sectors(d: Image): (r: seq<V.Half>)
    ensures |r| == 2 * MAX_BLOCK
  {
    seq(2 * MAX_BLOCK, i requires 0 <= i < 2 * MAX_BLOCK =>
      if i % 2 == 0 then DataOf(d[i / 2]).lo else DataOf(d[i / 2]).hi)
  }

  // Each sector has 512 bytes, and the two of a block are its bytes, in order.
  lemma Halves(b: Block)
    ensures |DataOf(b).lo| == |DataOf(b).hi| == 512 && DataOf(b).lo + DataOf(b).hi == Bytes(b)
  {
    Parted(Bytes(b));
  }

  lemma Parted(raw: Raw)
    ensures |raw[..SECTOR_SIZE]| == |raw[SECTOR_SIZE..]| == 512 && raw[..SECTOR_SIZE] + raw[SECTOR_SIZE..] == raw
  {
  }

  lemma SectorsOf(d: Image, no: nat)
    requires no < MAX_BLOCK
    ensures Sectors(d)[2 * no] == DataOf(d[no]).lo && Sectors(d)[2 * no + 1] == DataOf(d[no]).hi
  {
    Even(no);
  }

  lemma Even(n: nat)
    ensures 2 * n % 2 == 0 && 2 * n / 2 == n && (2 * n + 1) % 2 == 1 && (2 * n + 1) / 2 == n
  {
  }

  // Where the 32-bit product of virtio_disk_rw takes a block number.
  lemma SectorAt(no: V.u32)
    ensures V.Sector(no) == 2 * Place(no)
  {
  }

  lemma Load(d: Image, no: V.u32)
    requires Place(no) < MAX_BLOCK
    ensures V.Load(Sectors(d), V.Sector(no)) == DataOf(d[Place(no)])
  {
    SectorAt(no);
  }

  lemma Store(d: Image, no: V.u32, b: Block)
    ensures V.Store(Sectors(d), V.Sector(no), DataOf(b)) == Sectors(Written(d, no, b))
  {
    SectorAt(no);
    var p, r := Place(no), V.Store(Sectors(d), V.Sector(no), DataOf(b));
    forall i | 0 <= i < 2 * MAX_BLOCK ensures r[i] == Sectors(Written(d, no, b))[i] {
      if i / 2 == p { assert i == 2 * p || i == 2 * p + 1; }
    }
  }

  // The calls of bread and bwrite.
  datatype Access = Read(no: V.u32) | Write(no: V.u32, block: Block)

  function Written(d: Image, no: V.u32, b: Block): Image { if Place(no) < MAX_BLOCK then d[Place(no) := b] else d }

  function ImageStep(d: Image, a: Access): Image { if a.Write? then Written(d, a.no, a.block) else d }

  function ImageAfter(d: Image, accesses: seq<Access>): Image {
    if accesses == [] then d
    else ImageStep(ImageAfter(d, accesses[..|accesses| - 1]), accesses[|accesses| - 1])
  }

  // What a call of virtio_disk_rw is for.
  predicate Asks(c: V.Call, a: Access) {
    c.blockno == a.no && c.write == a.Write? && (a.Write? ==> c.data == DataOf(a.block))
  }

  // The device fails past the end of the disk. It may fail to read on the disk, but not to write there: what that
  // leaves is no image of blocks.
  predicate Sane(e: V.Event, a: Access) {
    (e.status == 0 ==> Place(a.no) < MAX_BLOCK) && (a.Write? && Place(a.no) < MAX_BLOCK ==> e.status == 0)
  }

  ghost predicate AllAsk(calls: seq<V.Call>, accesses: seq<Access>) {
    |calls| == |accesses| && forall i :: 0 <= i < |calls| ==> Asks(calls[i], accesses[i])
  }

  ghost predicate AllServe(events: seq<V.Event>, calls: seq<V.Call>, accesses: seq<Access>) {
    |events| <= |calls| == |accesses|
    && forall i :: 0 <= i < |events| ==> V.Serves(events[i], calls[i]) && Sane(events[i], accesses[i])
  }

  lemma StepOnBlocks(d: Image, e: V.Event, c: V.Call, a: Access)
    requires V.Serves(e, c) && Asks(c, a) && Sane(e, a)
    ensures V.DiskAfter(Sectors(d), e) == Sectors(ImageStep(d, a))
  {
    if a.Write? {
      SectorAt(a.no);
      Store(d, a.no, a.block);
    }
  }

  lemma {:induction false} ReplayOnBlocks(d: Image, events: seq<V.Event>, calls: seq<V.Call>, accesses: seq<Access>)
    requires AllAsk(calls, accesses) && AllServe(events, calls, accesses)
    ensures V.Replay(Sectors(d), events) == Sectors(ImageAfter(d, accesses[..|events|]))
    decreases |events|
  {
    if events != [] {
      var n := |events| - 1;
      ReplayOnBlocks(d, events[..n], calls, accesses);
      StepOnBlocks(ImageAfter(d, accesses[..n]), events[n], calls[n], accesses[n]);
      assert accesses[..n + 1][..n] == accesses[..n];
    }
  }

  // In every run of the driver that starts on the bytes of an image, the disk holds the bytes of the image that
  // the accesses make of it one after the other, a call past the end of the disk fails, and a read that succeeds
  // returns the bytes of its block as the accesses before it left it.
  lemma OnBlocks(d: Image, steps: seq<V.Step>, accesses: seq<Access>)
    requires V.Legal(V.Initial(Sectors(d)), steps)
    requires var s := V.After(V.Initial(Sectors(d)), steps);
             AllAsk(s.calls, accesses) && |s.events| <= |accesses|
             && forall i :: 0 <= i < |s.events| ==> Sane(s.events[i], accesses[i])
    ensures var s := V.After(V.Initial(Sectors(d)), steps);
            && s.device.disk == Sectors(ImageAfter(d, accesses[..|s.events|]))
            && |s.replies| <= |s.events|
            && forall i :: 0 <= i < |s.replies| ==> Answered(d, accesses, i, s.replies[i])
  {
    var s := V.After(V.Initial(Sectors(d)), steps);
    V.ActsInOrder(Sectors(d), steps);
    ReplayOnBlocks(d, s.events, s.calls, accesses);
    forall i | 0 <= i < |s.replies| ensures Answered(d, accesses, i, s.replies[i]) {
      ReplayOnBlocks(d, s.events[..i], s.calls, accesses);
      if Place(accesses[i].no) < MAX_BLOCK { Load(ImageAfter(d, accesses[..i]), accesses[i].no); }
    }
  }

  predicate Answered(d: Image, accesses: seq<Access>, i: nat, r: V.Reply)
    requires i < |accesses|
  {
    var a := accesses[i];
    (r.ok ==> Place(a.no) < MAX_BLOCK) && (a.Write? && Place(a.no) < MAX_BLOCK ==> r.ok)
    && (r.ok ==> r.data == DataOf(if a.Write? then a.block else ImageAfter(d, accesses[..i])[Place(a.no)]))
  }

  // The same accesses on the device of Blocks, which never fails on the disk: bread and bwrite cannot tell them
  // apart.
  method Perform(dev: Device, a: Access, buffer: Block, ghost d: Image, ghost accesses: seq<Access>)
    returns (b: Block, failed: bool)
    requires dev.Valid() && dev.View() == ImageAfter(d, accesses)
    modifies dev.blocks
    ensures dev.View() == ImageAfter(d, accesses + [a])
    ensures Answered(d, accesses + [a], |accesses|, V.Reply(!failed, DataOf(b)))
    ensures failed <==> Place(a.no) >= MAX_BLOCK
    ensures failed ==> b == buffer
  {
    assert (accesses + [a])[..|accesses|] == accesses;
    match a
    case Read(no) =>
      b := dev.Bread(no, buffer);
      failed := Place(no) >= MAX_BLOCK;
    case Write(no, block) =>
      failed := dev.Bwrite(no, block);
      b := if failed then buffer else block;
  }
}
