// virtio.c as a protocol: callers of virtio_disk_rw, the device and the interrupt handler take steps
// in any order. Indices run freely and wrap at 16 bits; rings have NUM slots.

module VirtioProtocol {
  import opened VirtioDriver
  import opened Options
  import CString

  const U32 := 0x1_0000_0000
  type u32 = x: int | 0 <= x < U32

  type Half = seq<CString.byte>

  // 1024 bytes: two sectors.
  datatype Data = Data(lo: Half, hi: Half)

  // A call of virtio_disk_rw, with what its buffer holds when it is made.
  datatype Call = Call(buf: nat, blockno: u32, write: bool, data: Data)

  // struct buf: the bytes, "does the disk own it", "was the transfer successful".
  datatype Buf = Buf(data: Data, disk: bool, successful: bool)

  // A transfer as the device performed it: from which sector and how many, in which direction, from or to
  // which buffer, the bytes that held, the status byte it wrote, and what a failed transfer left behind.
  datatype Event = Event(sector: nat, count: nat, write: bool, buf: nat, data: Data, status: nat, spoiled: Data)

  datatype Reply = Reply(ok: bool, data: Data)

  // ---------- The disk as a sequential object ----------

  // The product is taken in 32 bits.
  function Sector(blockno: u32): nat { blockno * 2 % U32 }

  function Load(disk: seq<Half>, sector: nat): Data {
    if sector + 2 <= |disk| then Data(disk[sector], disk[sector + 1]) else Data([], [])
  }

  function Store(disk: seq<Half>, sector: nat, data: Data): (r: seq<Half>)
    ensures |r| == |disk|
  {
    if sector + 2 <= |disk| then disk[sector := data.lo][sector + 1 := data.hi] else disk
  }

  // Some sectors' worth of new, and the rest of data.
  function Part(data: Data, count: nat, new': Data): Data {
    Data(if count >= 1 then new'.lo else data.lo, if count >= 2 then new'.hi else data.hi)
  }

  // The buffer with so many sectors of the disk.
  function Received(disk: seq<Half>, sector: nat, count: nat, data: Data): Data {
    if sector + count > |disk| || count == 0 then data
    else if count == 1 then Data(disk[sector], data.hi)
    else Data(disk[sector], disk[sector + 1])
  }

  // The disk with so many sectors of the buffer.
  function Overwritten(disk: seq<Half>, sector: nat, count: nat, data: Data): (r: seq<Half>)
    ensures |r| == |disk|
  {
    if sector + count > |disk| || count == 0 then disk
    else if count == 1 then disk[sector := data.lo]
    else disk[sector := data.lo][sector + 1 := data.hi]
  }

  function DiskAfter(disk: seq<Half>, e: Event): (r: seq<Half>)
    ensures |r| == |disk|
  {
    if e.write then Overwritten(disk, e.sector, e.count, if e.status == 0 then e.data else e.spoiled) else disk
  }

  function DataAfter(disk: seq<Half>, e: Event): Data {
    if e.write then e.data
    else if e.status == 0 then Received(disk, e.sector, e.count, e.data)
    else Part(e.data, e.count, e.spoiled)
  }

  // The disk after some transfers, one after the other.
  function Replay(disk: seq<Half>, events: seq<Event>): (r: seq<Half>)
    ensures |r| == |disk|
  {
    if events == [] then disk else DiskAfter(Replay(disk, events[..|events| - 1]), events[|events| - 1])
  }

  // What the caller of transfer n gets.
  function ReplyTo(disk: seq<Half>, events: seq<Event>, n: nat): Reply
    requires n < |events|
  {
    Reply(events[n].status == 0, DataAfter(Replay(disk, events[..n]), events[n]))
  }

  // The transfer is the one the caller asked for: both sectors of the block.
  predicate Serves(e: Event, c: Call) {
    e.sector == Sector(c.blockno) && e.count == 2 && e.write == c.write && e.buf == c.buf && e.data == c.data
  }

  // ---------- States ----------

  datatype Phase = Acquired | Allocated | Formatted | Stored | Waiting | Finished | Cleared

  datatype Stage = Idle | Busy(at: Phase, call: Call, idx: seq<nat>)

  datatype Pending = Pending(head: nat, served: bool)

  datatype Device = Device(disk: seq<Half>, taken: u16, pending: seq<Pending>, usedRing: seq<nat>, usedIdx: u16,
                           stored: bool)

  datatype Handler =
    | Off | Polling | Fetching | Looking(id: nat) | Named(id: nat, buf: Option<nat>)
    | Seen(buf: Option<nat>, status: nat) | Marked(b: nat) | Acked

  // Requests submitted, taken by the device, published by it, acknowledged (disk := 0), and passed over.
  datatype Counts = Counts(submitted: nat, taken: nat, published: nat, acked: nat, reaped: nat)

  datatype State = State(driver: Driver, stage: Stage, bufs: map<nat, Buf>, device: Device, handler: Handler,
                         n: Counts, calls: seq<Call>, events: seq<Event>, replies: seq<Reply>, fault: bool)

  function AllFree(): seq<bool> { seq(NUM, _ => true) }

  function NoDescs(): seq<Desc> { seq(NUM, _ => ZeroDesc) }

  function Initial(disk: seq<Half>): State {
    State(Driver(AllFree(), NoDescs(), seq(NUM, _ => Header(0, 0)), seq(NUM, _ => Info(None, 0)),
                 seq(NUM, _ => 0), 0, 0),
          Idle, map[], Device(disk, 0, [], seq(NUM, _ => 0), 0, false), Off, Counts(0, 0, 0, 0, 0), [], [], [], false)
  }

  // ---------- Steps ----------

  datatype Step =
    | Acquire(call: Call, buf: Buf) | Allocate | FormatChain | StoreHead | Submit | Leave | Clear | Release
    | Take | Serve(k: nat, status: nat, spoiled: Data) | Use(k: nat) | Publish
    | Enter | Poll | Fetch | Look | Check | Mark | Ack | Advance

  predicate OfDevice(step: Step) { step.Take? || step.Serve? || step.Use? || step.Publish? }

  predicate OfHandler(step: Step) {
    step.Enter? || step.Poll? || step.Fetch? || step.Look? || step.Check? || step.Mark? || step.Ack? || step.Advance?
  }

  function Bump(i: u16): u16 { (i + 1) % WRAP }

  // What the device reads along the chain at head: direction, first sector, buffer and number of bytes, and
  // the place of the status byte.
  datatype Request = Request(write: bool, sector: nat, buf: nat, len: nat, info: nat)

  // The numbers are the device's own (VIRTIO 1.1, sections 2.6.5 and 5.2.6): type 1 writes the disk and 0
  // reads it; flag 1 continues the chain, flag 2 lets the device write; a header has 16 bytes, a status one.
  function ReadChain(d: Driver, head: nat): Option<Request>
    requires |d.desc| == |d.ops| == NUM
  {
    if head >= NUM then None else
    var first := d.desc[head];
    if first.addr.HeaderAt? && first.addr.i < NUM && first.len == 16 && first.flags == 1 && first.next < NUM
       && d.ops[first.addr.i].kind <= 1
    then
      var header, second := d.ops[first.addr.i], d.desc[first.next];
      if second.addr.DataOf? && second.next < NUM && second.flags == (if header.kind == 1 then 1 else 3)
      then
        var third := d.desc[second.next];
        if third.addr.StatusAt? && third.addr.i < NUM && third.len == 1 && third.flags == 2
        then Some(Request(header.kind == 1, header.sector, second.addr.buf, second.len, third.addr.i))
        else None
      else None
    else None
  }

  // Sectors have 512 bytes.
  function Count(r: Request): nat { r.len / 512 }

  // Whole sectors, and no more than the buffer has.
  predicate Proper(r: Request) { r.len % 512 == 0 && Count(r) <= 2 }

  ghost predicate Sized(s: State) {
    |s.driver.free| == |s.driver.desc| == |s.driver.ops| == |s.driver.info| == |s.driver.availRing| == NUM
    && |s.device.usedRing| == NUM
    && (s.stage.Busy? && s.stage.at != Acquired ==>
          |s.stage.idx| == 3 && forall k :: 0 <= k < 3 ==> s.stage.idx[k] < NUM)
    && (s.stage.Busy? ==> s.stage.call.buf in s.bufs)
  }

  ghost predicate At(s: State, phase: Phase) { s.stage.Busy? && s.stage.at == phase }

  ghost predicate Enabled(s: State, step: Step) {
    Sized(s) && !s.fault &&
    match step
    case Acquire(call, buf) => s.stage.Idle? && buf.data == call.data
    case Allocate => At(s, Acquired) && FreeCount(s.driver.free) >= 3
    case FormatChain => At(s, Allocated)
    case StoreHead => At(s, Formatted)
    case Submit => At(s, Stored)
    case Leave => At(s, Waiting) && !s.bufs[s.stage.call.buf].disk
    case Clear => At(s, Finished)
    case Release => At(s, Cleared)
    case Take => s.device.taken != s.driver.availIdx
    case Serve(k, status, _) =>
      k < |s.device.pending| && !s.device.pending[k].served
      && (status == 0 ==> match ReadChain(s.driver, s.device.pending[k].head)
                          case None => true
                          case Some(r) => r.sector + Count(r) <= |s.device.disk|)
    case Use(k) => k < |s.device.pending| && s.device.pending[k].served && !s.device.stored
    case Publish => s.device.stored
    case Enter => s.handler.Off?
    case Poll => s.handler.Polling?
    case Fetch => s.handler.Fetching?
    case Look => s.handler.Looking?
    case Check => s.handler.Named?
    case Mark => s.handler.Seen?
    case Ack => s.handler.Marked?
    case Advance => s.handler.Acked?
  }

  ghost function Next(s: State, step: Step): State
    requires Enabled(s, step)
  {
    match step
    case Acquire(_, _) | Allocate | FormatChain | StoreHead | Submit | Leave | Clear | Release => DriverNext(s, step)
    case Take | Serve(_, _, _) | Use(_) | Publish => DeviceNext(s, step)
    case Enter | Poll | Fetch | Look | Check | Mark | Ack | Advance => HandlerNext(s, step)
  }

  function HeaderOf(call: Call): Header { Header(if call.write then TYPE_OUT else TYPE_IN, Sector(call.blockno)) }

  ghost function DriverNext(s: State, step: Step): State
    requires Enabled(s, step)
    requires step.Acquire? || step.Allocate? || step.FormatChain? || step.StoreHead? || step.Submit? || step.Leave?
             || step.Clear? || step.Release?
  {
    var d := s.driver;
    match step
    case Acquire(call, buf) =>
      s.(stage := Busy(Acquired, call, []), bufs := s.bufs[call.buf := buf], calls := s.calls + [call])
    case Allocate =>
      PicksLowest(d.free, 3);
      s.(driver := d.(free := TakeN(d.free, 3)), stage := s.stage.(at := Allocated, idx := Picks(d.free, 3)))
    case FormatChain =>
      var call, i := s.stage.call, s.stage.idx;
      s.(driver := d.(desc := Format(d.desc, i[0], i[1], i[2], call.buf, call.write),
                      ops := d.ops[i[0] := HeaderOf(call)],
                      info := d.info[i[0] := Info(Some(call.buf), PENDING)]),
         bufs := s.bufs[call.buf := s.bufs[call.buf].(disk := true)],
         stage := s.stage.(at := Formatted))
    case StoreHead =>
      s.(driver := d.(availRing := d.availRing[d.availIdx % NUM := s.stage.idx[0]]), stage := s.stage.(at := Stored))
    case Submit =>
      s.(driver := d.(availIdx := Bump(d.availIdx)), n := s.n.(submitted := s.n.submitted + 1),
         stage := s.stage.(at := Waiting))
    case Leave => s.(stage := s.stage.(at := Finished))
    case Clear =>
      s.(driver := d.(info := d.info[s.stage.idx[0] := d.info[s.stage.idx[0]].(buf := None)]),
         stage := s.stage.(at := Cleared))
    case Release =>
      var b := s.bufs[s.stage.call.buf];
      if IsChain(d.desc, s.stage.idx) && forall k :: 0 <= k < 3 ==> !d.free[s.stage.idx[k]] then
        s.(driver := d.(free := FreeAll(d.free, s.stage.idx), desc := ZeroAll(d.desc, s.stage.idx)), stage := Idle,
           replies := s.replies + [Reply(b.successful, b.data)])
      else
        s.(fault := true)
  }

  ghost function DeviceNext(s: State, step: Step): State
    requires Enabled(s, step) && (OfDevice(step))
  {
    var d, v := s.driver, s.device;
    match step
    case Take =>
      s.(device := v.(taken := Bump(v.taken), pending := v.pending + [Pending(d.availRing[v.taken % NUM], false)]),
         n := s.n.(taken := s.n.taken + 1))
    case Serve(k, status, spoiled) =>
      (match ReadChain(d, v.pending[k].head)
       case None => s.(fault := true)
       case Some(r) =>
         if r.buf !in s.bufs || !Proper(r) then s.(fault := true) else
         var b := s.bufs[r.buf];
         var e := Event(r.sector, Count(r), r.write, r.buf, b.data, status, spoiled);
         s.(device := v.(disk := DiskAfter(v.disk, e), pending := v.pending[k := v.pending[k].(served := true)]),
            bufs := s.bufs[r.buf := b.(data := DataAfter(v.disk, e))],
            driver := d.(info := d.info[r.info := d.info[r.info].(status := status)]),
            events := s.events + [e]))
    case Use(k) =>
      s.(device := v.(usedRing := v.usedRing[v.usedIdx % NUM := v.pending[k].head], stored := true,
                      pending := v.pending[..k] + v.pending[k + 1..]))
    case Publish =>
      s.(device := v.(usedIdx := Bump(v.usedIdx), stored := false), n := s.n.(published := s.n.published + 1))
  }

  ghost function HandlerNext(s: State, step: Step): State
    requires Enabled(s, step)
    requires OfHandler(step)
  {
    var d, v := s.driver, s.device;
    match step
    case Enter => s.(handler := Polling)
    case Poll => s.(handler := if d.usedIdx != v.usedIdx then Fetching else Off)
    case Fetch => s.(handler := Looking(v.usedRing[d.usedIdx % NUM]))
    case Look =>
      if s.handler.id < NUM then s.(handler := Named(s.handler.id, d.info[s.handler.id].buf)) else s.(fault := true)
    case Check =>
      if s.handler.id < NUM then s.(handler := Seen(s.handler.buf, d.info[s.handler.id].status)) else s.(fault := true)
    case Mark =>
      (match s.handler.buf
       case None => s.(fault := true)
       case Some(b) =>
         if b !in s.bufs then s.(fault := true)
         else s.(bufs := s.bufs[b := s.bufs[b].(successful := s.handler.status == 0)], handler := Marked(b)))
    case Ack =>
      var b := s.handler.b;
      if b !in s.bufs then s.(fault := true)
      else s.(bufs := s.bufs[b := s.bufs[b].(disk := false)], handler := Acked, n := s.n.(acked := s.n.acked + 1))
    case Advance =>
      s.(driver := d.(usedIdx := Bump(d.usedIdx)), handler := Polling, n := s.n.(reaped := s.n.reaped + 1))
  }

  // ---------- The invariant ----------

  // The free map lacks exactly the three different descriptors of idx.
  predicate Without(free: seq<bool>, idx: seq<nat>) {
    |idx| == 3 && idx[0] < idx[1] < idx[2] < NUM && |free| == NUM
    && forall i :: 0 <= i < NUM ==> (free[i] <==> i != idx[0] && i != idx[1] && i != idx[2])
  }

  predicate NoBuf(info: seq<Info>) { forall i :: 0 <= i < |info| ==> info[i].buf == None }

  predicate OnlyBuf(info: seq<Info>, i: nat, b: nat) {
    i < |info| && info[i].buf == Some(b) && forall j :: 0 <= j < |info| && j != i ==> info[j].buf == None
  }

  predicate Held(stage: Stage) { stage.Busy? && stage.at != Acquired }

  // The request has been described in the tables and is still registered there.
  predicate Described(stage: Stage) { Held(stage) && stage.at != Allocated && stage.at != Cleared }

  // The free map, the descriptor table and the requests in flight, as the stage wants them.
  ghost predicate Tables(s: State) {
    Sized(s)
    && (if Held(s.stage) then Without(s.driver.free, s.stage.idx)
        else s.driver.free == AllFree() && s.driver.desc == NoDescs())
    && (At(s, Allocated) ==> s.driver.desc == NoDescs())
    && (Held(s.stage) && s.stage.at != Allocated ==>
          s.driver.desc == Format(NoDescs(), s.stage.idx[0], s.stage.idx[1], s.stage.idx[2], s.stage.call.buf,
                                  s.stage.call.write))
    && (if Described(s.stage) then
          OnlyBuf(s.driver.info, s.stage.idx[0], s.stage.call.buf)
          && s.driver.ops[s.stage.idx[0]] == HeaderOf(s.stage.call)
        else NoBuf(s.driver.info))
  }

  predicate InFlight(s: State) { s.n.submitted == s.n.acked + 1 }

  predicate Early(stage: Stage) {
    stage.Busy? && (stage.at == Acquired || stage.at == Allocated || stage.at == Formatted || stage.at == Stored)
  }

  ghost predicate Counting(s: State) {
    var n := s.n;
    n.acked <= n.published <= n.taken <= n.submitted <= n.acked + 1
    && n.reaped <= n.acked <= n.reaped + 1
    && (n.acked == n.reaped + 1 <==> s.handler.Acked?)
    && s.driver.availIdx == n.submitted % WRAP && s.driver.usedIdx == n.reaped % WRAP
    && s.device.taken == n.taken % WRAP && s.device.usedIdx == n.published % WRAP
    && |s.calls| == n.submitted + (if Early(s.stage) then 1 else 0)
    && |s.replies| == |s.calls| - (if s.stage.Busy? then 1 else 0)
    && (InFlight(s) ==> At(s, Waiting))
  }

  // The waiting caller's buffer is the disk's exactly while its request is in flight.
  ghost predicate Owned(s: State) {
    Sized(s) && (s.stage.Busy? && s.stage.at != Acquired && s.stage.at != Allocated ==>
      (s.bufs[s.stage.call.buf].disk <==> InFlight(s) || At(s, Formatted) || At(s, Stored)))
  }

  // Where the one request is between submission and publication.
  ghost predicate Moving(s: State) {
    var v, n, d := s.device, s.n, s.driver;
    Sized(s)
    && (At(s, Stored) ==> d.availRing[n.submitted % NUM] == s.stage.idx[0])
    && (InFlight(s) && At(s, Waiting) && n.taken == n.acked ==> d.availRing[n.acked % NUM] == s.stage.idx[0])
    && (if InFlight(s) && At(s, Waiting) && n.taken == n.acked + 1 then
          if n.published == n.acked + 1 || v.stored then
            v.pending == [] && v.usedRing[n.acked % NUM] == s.stage.idx[0] && |s.events| == n.acked + 1
            && (v.stored <==> n.published == n.acked)
          else
            |v.pending| == 1 && v.pending[0].head == s.stage.idx[0]
            && |s.events| == n.acked + (if v.pending[0].served then 1 else 0)
        else v.pending == [] && !v.stored && |s.events| == n.acked)
  }

  ghost predicate Handling(s: State) {
    var n := s.n;
    Sized(s) &&
    match s.handler
    case Off | Polling | Acked => true
    case Fetching => InFlight(s) && At(s, Waiting) && n.published == n.acked + 1
    case Looking(id) => InFlight(s) && At(s, Waiting) && n.published == n.acked + 1 && id == s.stage.idx[0]
    case Named(id, buf) =>
      InFlight(s) && At(s, Waiting) && n.published == n.acked + 1 && id == s.stage.idx[0]
      && buf == Some(s.stage.call.buf)
    case Seen(buf, status) =>
      InFlight(s) && At(s, Waiting) && n.published == n.acked + 1 && buf == Some(s.stage.call.buf)
      && status == s.driver.info[s.stage.idx[0]].status
    case Marked(b) =>
      InFlight(s) && At(s, Waiting) && n.published == n.acked + 1 && b == s.stage.call.buf
      && s.bufs[b].successful == (s.driver.info[s.stage.idx[0]].status == 0)
  }

  // Every transfer serves its call, every reply is the one its transfer gives, and the disk is what
  // the transfers made of it.
  ghost predicate Explains(now: seq<Half>, events: seq<Event>, calls: seq<Call>, replies: seq<Reply>, disk: seq<Half>) {
    now == Replay(disk, events)
    && |replies| <= |events| <= |calls|
    && (forall i :: 0 <= i < |events| ==> Serves(events[i], calls[i]))
    && (forall i :: 0 <= i < |replies| ==> replies[i] == ReplyTo(disk, events, i))
  }

  ghost predicate History(s: State, disk: seq<Half>) {
    Explains(s.device.disk, s.events, s.calls, s.replies, disk)
  }

  // The call under way, before and after its transfer.
  ghost predicate Current(s: State, disk: seq<Half>) {
    Sized(s) && (s.stage.Busy? ==>
      var n, b := |s.calls|, s.bufs[s.stage.call.buf];
      n > 0 && s.calls[n - 1] == s.stage.call
      && (|s.events| < n ==> b.data == s.stage.call.data)
      && (|s.events| < n && Described(s.stage) ==> s.driver.info[s.stage.idx[0]].status == 0xff)
      && (|s.events| == n ==> b.data == ReplyTo(disk, s.events, n - 1).data)
      && (|s.events| == n && Described(s.stage) ==> s.driver.info[s.stage.idx[0]].status == s.events[n - 1].status)
      && ((At(s, Waiting) && !InFlight(s)) || At(s, Finished) || At(s, Cleared) ==>
            |s.events| == n && b.successful == (s.events[n - 1].status == 0)))
  }

  ghost predicate Inv(s: State, disk: seq<Half>) {
    !s.fault && Tables(s) && Counting(s) && Owned(s) && Moving(s) && Handling(s) && History(s, disk) && Current(s, disk)
  }

  // ---------- Each step keeps it ----------

  lemma Slot(n: nat)
    ensures n % WRAP % NUM == n % NUM
  {
  }

  lemma Bumped(n: nat)
    ensures Bump(n % WRAP) == (n + 1) % WRAP
  {
  }

  lemma Apart(a: nat, b: nat)
    requires b <= a <= b + 2
    ensures a % WRAP == b % WRAP <==> a == b
  {
  }

  lemma {:induction false} CountAll(f: seq<bool>)
    requires forall i :: 0 <= i < |f| ==> f[i]
    ensures FreeCount(f) == |f|
  {
    if f != [] { CountAll(f[1..]); }
  }

  // The first three free descriptors, when all are free.
  lemma FirstThree(f: seq<bool>)
    requires f == AllFree()
    ensures Without(TakeN(f, 3), Picks(f, 3))
  {
    CountAll(f);
    PicksLowest(f, 3);
    var p := Picks(f, 3);
    assert p[0] < p[1] < p[2];
    assert f[p[2]];
  }

  lemma ReplyExtend(disk: seq<Half>, events: seq<Event>, e: Event)
    ensures Replay(disk, events + [e]) == DiskAfter(Replay(disk, events), e)
    ensures forall n :: 0 <= n < |events| ==> ReplyTo(disk, events + [e], n) == ReplyTo(disk, events, n)
    ensures ReplyTo(disk, events + [e], |events|) == Reply(e.status == 0, DataAfter(Replay(disk, events), e))
  {
    assert (events + [e])[..|events|] == events;
    forall n | 0 <= n < |events| ensures ReplyTo(disk, events + [e], n) == ReplyTo(disk, events, n) {
      assert (events + [e])[..n] == events[..n];
    }
  }

  lemma ExplainsMore(now: seq<Half>, events: seq<Event>, calls: seq<Call>, replies: seq<Reply>, disk: seq<Half>,
                     e: Event)
    requires Explains(now, events, calls, replies, disk) && |events| < |calls| && Serves(e, calls[|events|])
    ensures Explains(DiskAfter(now, e), events + [e], calls, replies, disk)
    ensures ReplyTo(disk, events + [e], |events|) == Reply(e.status == 0, DataAfter(now, e))
  {
    ReplyExtend(disk, events, e);
  }

  // The device reads from the table exactly what the caller asked for.
  lemma SeenChain(s: State)
    requires Tables(s) && Described(s.stage)
    ensures ReadChain(s.driver, s.stage.idx[0])
            == Some(Request(s.stage.call.write, Sector(s.stage.call.blockno), s.stage.call.buf, 1024, s.stage.idx[0]))
  {
  }

  lemma AcquireKeeps(s: State, step: Step, disk: seq<Half>)
    requires Inv(s, disk) && Enabled(s, step) && step.Acquire?
    ensures Inv(Next(s, step), disk)
  {
  }

  lemma AllocateKeeps(s: State, disk: seq<Half>)
    requires Inv(s, disk) && Enabled(s, Allocate)
    ensures Inv(Next(s, Allocate), disk)
  {
    FirstThree(s.driver.free);
  }

  lemma FormatChainKeeps(s: State, disk: seq<Half>)
    requires Inv(s, disk) && Enabled(s, FormatChain)
    ensures Inv(Next(s, FormatChain), disk)
  {
  }

  lemma StoreHeadKeeps(s: State, disk: seq<Half>)
    requires Inv(s, disk) && Enabled(s, StoreHead)
    ensures Inv(Next(s, StoreHead), disk)
  {
    Slot(s.n.submitted);
  }

  lemma SubmitKeeps(s: State, disk: seq<Half>)
    requires Inv(s, disk) && Enabled(s, Submit)
    ensures Inv(Next(s, Submit), disk)
  {
    Bumped(s.n.submitted);
  }

  lemma LeaveKeeps(s: State, disk: seq<Half>)
    requires Inv(s, disk) && Enabled(s, Leave)
    ensures Inv(Next(s, Leave), disk)
  {
  }

  lemma ClearKeeps(s: State, disk: seq<Half>)
    requires Inv(s, disk) && Enabled(s, Clear)
    ensures Inv(Next(s, Clear), disk)
  {
  }

  // Freeing the chain of a call leaves all descriptors free and zero.
  lemma Released(s: State)
    requires Tables(s) && At(s, Cleared)
    ensures var d, idx := s.driver, s.stage.idx;
            && IsChain(d.desc, idx) && (forall k :: 0 <= k < 3 ==> !d.free[idx[k]])
            && FreeAll(d.free, idx) == AllFree() && ZeroAll(d.desc, idx) == NoDescs()
  {
    var idx := s.stage.idx;
    assert idx == [idx[0], idx[1], idx[2]];
  }

  lemma ReleaseKeeps(s: State, disk: seq<Half>)
    requires Inv(s, disk) && Enabled(s, Release)
    ensures Inv(Next(s, Release), disk)
  {
    Released(s);
  }

  lemma TakeKeeps(s: State, disk: seq<Half>)
    requires Inv(s, disk) && Enabled(s, Take)
    ensures Inv(Next(s, Take), disk)
  {
    Slot(s.n.taken);
    Bumped(s.n.taken);
    Apart(s.n.submitted, s.n.taken);
  }

  // The only transfer there can be is the one the waiting caller asked for.
  lemma Served(s: State, step: Step, disk: seq<Half>)
    requires Inv(s, disk) && Enabled(s, step) && step.Serve?
    ensures var call, i := s.stage.call, s.stage.idx[0];
            var data := s.bufs[call.buf].data;
            var e := Event(Sector(call.blockno), 2, call.write, call.buf, data, step.status, step.spoiled);
            && Serves(e, call)
            && Next(s, step)
               == s.(device := s.device.(disk := DiskAfter(s.device.disk, e), pending := [Pending(i, true)]),
                     bufs := s.bufs[call.buf := s.bufs[call.buf].(data := DataAfter(s.device.disk, e))],
                     driver := s.driver.(info := s.driver.info[i := s.driver.info[i].(status := step.status)]),
                     events := s.events + [e])
  {
  }

  lemma ServeMoves(s: State, step: Step, disk: seq<Half>)
    requires Inv(s, disk) && Enabled(s, step) && step.Serve?
    ensures var t := Next(s, step); !t.fault && Tables(t) && Counting(t) && Owned(t) && Moving(t) && Handling(t)
  {
    Served(s, step, disk);
  }

  lemma ServeExplains(s: State, step: Step, disk: seq<Half>)
    requires Inv(s, disk) && Enabled(s, step) && step.Serve?
    ensures var t := Next(s, step);
            |t.events| == |s.events| + 1 && History(t, disk)
            && ReplyTo(disk, t.events, |s.events|)
               == Reply(step.status == 0, t.bufs[s.stage.call.buf].data)
  {
    Served(s, step, disk);
    var call := s.stage.call;
    ExplainsMore(s.device.disk, s.events, s.calls, s.replies, disk,
                 Event(Sector(call.blockno), 2, call.write, call.buf, s.bufs[call.buf].data, step.status,
                       step.spoiled));
  }

  lemma ServeRecords(s: State, step: Step, disk: seq<Half>)
    requires Inv(s, disk) && Enabled(s, step) && step.Serve?
    ensures History(Next(s, step), disk) && Current(Next(s, step), disk)
  {
    var t := Next(s, step);
    Served(s, step, disk);
    ServeExplains(s, step, disk);
    ServedCurrent(s, t, t.events[|s.events|], disk);
  }

  // After the transfer the buffer and the status byte hold the reply.
  lemma ServedCurrent(s: State, t: State, e: Event, disk: seq<Half>)
    requires Sized(t) && Current(s, disk) && At(s, Waiting) && InFlight(s) && |s.calls| == |s.events| + 1
    requires t.stage == s.stage && t.calls == s.calls && t.n == s.n && t.events == s.events + [e]
    requires t.driver.info[t.stage.idx[0]].status == e.status
    requires t.bufs[t.stage.call.buf].data == ReplyTo(disk, t.events, |s.events|).data
    ensures Current(t, disk)
  {
  }

  lemma ServeKeeps(s: State, step: Step, disk: seq<Half>)
    requires Inv(s, disk) && Enabled(s, step) && step.Serve?
    ensures Inv(Next(s, step), disk)
  {
    ServeMoves(s, step, disk);
    ServeRecords(s, step, disk);
  }

  lemma UseKeeps(s: State, step: Step, disk: seq<Half>)
    requires Inv(s, disk) && Enabled(s, step) && step.Use?
    ensures Inv(Next(s, step), disk)
  {
    Slot(s.n.published);
  }

  lemma PublishKeeps(s: State, disk: seq<Half>)
    requires Inv(s, disk) && Enabled(s, Publish)
    ensures Inv(Next(s, Publish), disk)
  {
    Bumped(s.n.published);
  }

  // What the handler's own place and index do not touch.
  lemma HandlerFrame(s: State, t: State, disk: seq<Half>)
    requires Inv(s, disk)
    requires t == s.(handler := t.handler, driver := s.driver.(usedIdx := t.driver.usedIdx),
                     n := s.n.(reaped := t.n.reaped))
    ensures Tables(t) && Owned(t) && Moving(t) && History(t, disk) && Current(t, disk)
  {
  }

  lemma EnterKeeps(s: State, disk: seq<Half>)
    requires Inv(s, disk) && Enabled(s, Enter)
    ensures Inv(Next(s, Enter), disk)
  {
    HandlerFrame(s, Next(s, Enter), disk);
  }

  lemma PollKeeps(s: State, disk: seq<Half>)
    requires Inv(s, disk) && Enabled(s, Poll)
    ensures Inv(Next(s, Poll), disk)
  {
    HandlerFrame(s, Next(s, Poll), disk);
    Apart(s.n.published, s.n.reaped);
  }

  lemma FetchKeeps(s: State, disk: seq<Half>)
    requires Inv(s, disk) && Enabled(s, Fetch)
    ensures Inv(Next(s, Fetch), disk)
  {
    HandlerFrame(s, Next(s, Fetch), disk);
    Slot(s.n.reaped);
  }

  lemma CheckKeeps(s: State, disk: seq<Half>)
    requires Inv(s, disk) && Enabled(s, Check)
    ensures Inv(Next(s, Check), disk)
  {
    HandlerFrame(s, Next(s, Check), disk);
  }

  lemma LookKeeps(s: State, disk: seq<Half>)
    requires Inv(s, disk) && Enabled(s, Look)
    ensures Inv(Next(s, Look), disk)
  {
    HandlerFrame(s, Next(s, Look), disk);
  }

  lemma MarkKeeps(s: State, disk: seq<Half>)
    requires Inv(s, disk) && Enabled(s, Mark)
    ensures Inv(Next(s, Mark), disk)
  {
  }

  lemma AckKeeps(s: State, disk: seq<Half>)
    requires Inv(s, disk) && Enabled(s, Ack)
    ensures Inv(Next(s, Ack), disk)
  {
  }

  lemma AdvanceKeeps(s: State, disk: seq<Half>)
    requires Inv(s, disk) && Enabled(s, Advance)
    ensures Inv(Next(s, Advance), disk)
  {
    HandlerFrame(s, Next(s, Advance), disk);
    Bumped(s.n.reaped);
  }

  lemma StepKeeps(s: State, step: Step, disk: seq<Half>)
    requires Inv(s, disk) && Enabled(s, step)
    ensures Inv(Next(s, step), disk)
  {
    if OfDevice(step) {
      DeviceKeeps(s, step, disk);
    } else if OfHandler(step) {
      HandlerKeeps(s, step, disk);
    } else {
      DriverKeeps(s, step, disk);
    }
  }

  lemma DriverKeeps(s: State, step: Step, disk: seq<Half>)
    requires Inv(s, disk) && Enabled(s, step)
    requires step.Acquire? || step.Allocate? || step.FormatChain? || step.StoreHead? || step.Submit? || step.Leave?
             || step.Clear? || step.Release?
    ensures Inv(Next(s, step), disk)
  {
    match step
    case Acquire(_, _) => AcquireKeeps(s, step, disk);
    case Allocate => AllocateKeeps(s, disk);
    case FormatChain => FormatChainKeeps(s, disk);
    case StoreHead => StoreHeadKeeps(s, disk);
    case Submit => SubmitKeeps(s, disk);
    case Leave => LeaveKeeps(s, disk);
    case Clear => ClearKeeps(s, disk);
    case Release => ReleaseKeeps(s, disk);
  }

  lemma DeviceKeeps(s: State, step: Step, disk: seq<Half>)
    requires Inv(s, disk) && Enabled(s, step) && (OfDevice(step))
    ensures Inv(Next(s, step), disk)
  {
    match step
    case Take => TakeKeeps(s, disk);
    case Serve(_, _, _) => ServeKeeps(s, step, disk);
    case Use(_) => UseKeeps(s, step, disk);
    case Publish => PublishKeeps(s, disk);
  }

  lemma HandlerKeeps(s: State, step: Step, disk: seq<Half>)
    requires Inv(s, disk) && Enabled(s, step) && OfHandler(step)
    ensures Inv(Next(s, step), disk)
  {
    if step.Mark? {
      MarkKeeps(s, disk);
    } else if step.Ack? {
      AckKeeps(s, disk);
    } else if step.Advance? {
      AdvanceKeeps(s, disk);
    } else {
      ReadsKeep(s, step, disk);
    }
  }

  lemma ReadsKeep(s: State, step: Step, disk: seq<Half>)
    requires Inv(s, disk) && Enabled(s, step)
    requires step.Enter? || step.Poll? || step.Fetch? || step.Look? || step.Check?
    ensures Inv(Next(s, step), disk)
  {
    match step
    case Enter => EnterKeeps(s, disk);
    case Poll => PollKeeps(s, disk);
    case Fetch => FetchKeeps(s, disk);
    case Look => LookKeeps(s, disk);
    case Check => CheckKeeps(s, disk);
  }

  // ---------- Every run ----------

  ghost predicate Legal(s: State, steps: seq<Step>)
    decreases steps
  {
    steps == [] || (Enabled(s, steps[0]) && Legal(Next(s, steps[0]), steps[1..]))
  }

  ghost function After(s: State, steps: seq<Step>): State
    requires Legal(s, steps)
    decreases steps
  {
    if steps == [] then s else After(Next(s, steps[0]), steps[1..])
  }

  lemma {:induction false} RunKeeps(s: State, steps: seq<Step>, disk: seq<Half>)
    requires Inv(s, disk) && Legal(s, steps)
    ensures Inv(After(s, steps), disk)
    decreases steps
  {
    if steps != [] {
      StepKeeps(s, steps[0], disk);
      RunKeeps(Next(s, steps[0]), steps[1..], disk);
    }
  }

  lemma {:induction false} LegalSnoc(s: State, steps: seq<Step>, step: Step)
    requires Legal(s, steps) && Enabled(After(s, steps), step)
    ensures Legal(s, steps + [step]) && After(s, steps + [step]) == Next(After(s, steps), step)
    decreases steps
  {
    if steps == [] {
      assert [step][1..] == [];
    } else {
      LegalSnoc(Next(s, steps[0]), steps[1..], step);
      assert (steps + [step])[1..] == steps[1..] + [step];
    }
  }

  // No null buffer, malformed chain or panic is ever met; at most one request is in flight; each
  // index trails the one it follows; all descriptors are free but the three of the call under way, whose
  // status byte is 0xff until its transfer.
  lemma {:induction false} Safe(disk: seq<Half>, steps: seq<Step>)
    requires Legal(Initial(disk), steps)
    ensures var s := After(Initial(disk), steps);
            && !s.fault
            && s.n.reaped <= s.n.acked <= s.n.published <= s.n.taken <= s.n.submitted <= s.n.acked + 1
            && s.n.acked <= s.n.reaped + 1
            && s.driver.availIdx == s.n.submitted % 0x1_0000 && s.driver.usedIdx == s.n.reaped % 0x1_0000
            && s.device.taken == s.n.taken % 0x1_0000 && s.device.usedIdx == s.n.published % 0x1_0000
            && FreeCount(s.driver.free) + (if Held(s.stage) then 3 else 0) == NUM
            && Sized(s) && (At(s, Waiting) && |s.events| < |s.calls| ==> s.driver.info[s.stage.idx[0]].status == 0xff)
  {
    RunKeeps(Initial(disk), steps, disk);
    var s := After(Initial(disk), steps);
    if Held(s.stage) { CountWithout(s.driver.free, s.stage.idx); } else { CountAll(s.driver.free); }
  }

  lemma CountWithout(f: seq<bool>, idx: seq<nat>)
    requires Without(f, idx)
    ensures FreeCount(f) + 3 == NUM
  {
    var g := f[idx[0] := true];
    var h := g[idx[1] := true];
    CountUpdate(f, idx[0], true);
    CountUpdate(g, idx[1], true);
    CountUpdate(h, idx[2], true);
    CountAll(h[idx[2] := true]);
  }

  // The calls take effect one at a time, in the order in which they got the lock, each exactly once
  // and before it returns: what returned is what the sequential disk answers.
  lemma {:induction false} ActsInOrder(disk: seq<Half>, steps: seq<Step>)
    requires Legal(Initial(disk), steps)
    ensures var s := After(Initial(disk), steps);
            && |s.replies| <= |s.events| <= |s.calls| <= |s.replies| + 1
            && s.device.disk == Replay(disk, s.events)
            && (forall i :: 0 <= i < |s.events| ==> Serves(s.events[i], s.calls[i]))
            && (forall i :: 0 <= i < |s.replies| ==> s.replies[i] == ReplyTo(disk, s.events, i))
  {
    RunKeeps(Initial(disk), steps, disk);
  }

  // ---------- Blocks ----------

  // What was last written to a sector pair, or what the disk held there at the start.
  function Latest(disk: seq<Half>, events: seq<Event>, sector: nat): Data {
    if events == [] then Load(disk, sector)
    else
      var e := events[|events| - 1];
      if e.write && e.sector == sector then (if e.status == 0 then e.data else e.spoiled)
      else Latest(disk, events[..|events| - 1], sector)
  }

  lemma {:induction false} LoadLatest(disk: seq<Half>, events: seq<Event>, sector: nat)
    requires sector % 2 == 0 && sector + 2 <= |disk|
    requires forall i :: 0 <= i < |events| ==> events[i].sector % 2 == 0 && events[i].count == 2
    ensures Load(Replay(disk, events), sector) == Latest(disk, events, sector)
  {
    if events != [] { LoadLatest(disk, events[..|events| - 1], sector); }
  }

  // Two block numbers name the same place exactly when they agree modulo 2^31: the driver's product
  // wraps at 32 bits.
  lemma SamePlace(a: u32, b: u32)
    ensures Sector(a) == 2 * (a % 0x8000_0000)
    ensures Sector(a) == Sector(b) <==> a % 0x8000_0000 == b % 0x8000_0000
  {
  }

  // A successful read returns what was last written to its block by the calls before it.
  lemma {:induction false} ReadsLatest(disk: seq<Half>, steps: seq<Step>, n: nat)
    requires Legal(Initial(disk), steps)
    requires var s := After(Initial(disk), steps);
             n < |s.replies| && n < |s.calls| && s.replies[n].ok && !s.calls[n].write
             && Sector(s.calls[n].blockno) + 2 <= |disk|
    ensures var s := After(Initial(disk), steps);
            n < |s.events| && s.replies[n].data == Latest(disk, s.events[..n], Sector(s.calls[n].blockno))
  {
    ActsInOrder(disk, steps);
    var s := After(Initial(disk), steps);
    forall i | 0 <= i < n ensures s.events[..n][i].sector % 2 == 0 && s.events[..n][i].count == 2 {
      assert Serves(s.events[i], s.calls[i]);
      SamePlace(s.calls[i].blockno, 0);
    }
    assert Serves(s.events[n], s.calls[n]);
    SamePlace(s.calls[n].blockno, 0);
    LoadLatest(disk, s.events[..n], Sector(s.calls[n].blockno));
  }

  // ---------- The wait ends ----------

  // How many steps of device and handler are left until the caller may go on.
  ghost function DeviceLeft(s: State): nat {
    var v, n := s.device, s.n;
    if n.published == n.acked + 1 then 0
    else if v.stored then 10
    else if v.pending == [] then 40
    else if v.pending[0].served then 20 else 30
  }

  function HandlerLeft(handler: Handler): nat {
    match handler
    case Acked => 8 case Off => 7 case Polling => 6 case Fetching => 5 case Looking(_) => 4 case Named(_, _) => 3
    case Seen(_, _) => 2 case Marked(_) => 1
  }

  ghost function Left(s: State): nat {
    if InFlight(s) then 1 + DeviceLeft(s) + HandlerLeft(s.handler) else 0
  }

  // The next step on the way: the device's while it has one, then the handler's.
  ghost function Following(s: State): Step {
    var v, n := s.device, s.n;
    if n.published != n.acked + 1 then
      (if v.stored then Publish else if v.pending == [] then Take
       else if v.pending[0].served then Use(0) else Serve(0, 1, Data([], [])))
    else NextOfHandler(s.handler)
  }

  // The one step that a handler there has.
  function NextOfHandler(handler: Handler): (step: Step)
    ensures OfHandler(step)
  {
    match handler
    case Acked => Advance case Off => Enter case Polling => Poll case Fetching => Fetch case Looking(_) => Look
    case Named(_, _) => Check case Seen(_, _) => Mark case Marked(_) => Ack
  }

  lemma DeviceNearer(s: State, disk: seq<Half>)
    requires Inv(s, disk) && InFlight(s) && s.n.published != s.n.acked + 1
    ensures Enabled(s, Following(s)) && Left(Next(s, Following(s))) < Left(s)
    ensures At(Next(s, Following(s)), Waiting)
  {
    Apart(s.n.submitted, s.n.taken);
    SeenChain(s);
  }

  // A handler that polls finds the request that has been published.
  lemma PollFinds(s: State, disk: seq<Half>)
    requires Inv(s, disk) && s.handler.Polling?
    ensures s.driver.usedIdx != s.device.usedIdx <==> s.n.published == s.n.acked + 1
  {
    Apart(s.n.published, s.n.reaped);
  }

  lemma HandlerNearer(s: State, disk: seq<Half>)
    requires Inv(s, disk) && InFlight(s) && s.n.published == s.n.acked + 1
    ensures Enabled(s, Following(s)) && Left(Next(s, Following(s))) < Left(s)
    ensures At(Next(s, Following(s)), Waiting)
  {
    if s.handler.Polling? { PollFinds(s, disk); }
  }

  // From every reachable state in which a caller waits, the device and the handler can end the wait.
  lemma {:induction false} WaitEnds(s: State, disk: seq<Half>) returns (steps: seq<Step>)
    requires Inv(s, disk) && At(s, Waiting)
    ensures Legal(s, steps) && Enabled(After(s, steps), Leave)
    decreases Left(s)
  {
    if InFlight(s) {
      if s.n.published == s.n.acked + 1 { HandlerNearer(s, disk); } else { DeviceNearer(s, disk); }
      StepKeeps(s, Following(s), disk);
      var rest := WaitEnds(Next(s, Following(s)), disk);
      steps := [Following(s)] + rest;
      assert steps[1..] == rest;
    } else {
      steps := [];
    }
  }
}
