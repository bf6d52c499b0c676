// virtio_disk_rw and virtio_disk_intr as code: every store they make is a step of the protocol.

module VirtioCalls {
  import opened VirtioDriver
  import opened VirtioProtocol
  import opened Options

  class Disk {
    const queue: VirtioDisk
    const ops: array<Header>
    const info: array<Info>
    const avail: array<nat>
    const used: array<nat>
    var availIdx: u16
    var usedIdx: u16
    // Written by the device, with used.
    var deviceIdx: u16
    // The device: its disk, how far it has read the available ring, what it has taken and not yet used, and
    // whether it has filled a slot of the used ring that it has not published.
    var disk: seq<Half>
    var taken: u16
    var pending: seq<Pending>
    var stored: bool
    var bufs: map<nat, Buf>
    // The run of the protocol that has led here, from the disk it began with, and where it has led.
    ghost const start: seq<Half>
    ghost var trail: seq<Step>
    ghost var s: State

    ghost predicate Apart()
      reads this
    {
      queue.Valid() && queue.free as object != queue.desc as object
      && ops as object != info as object && ops as object != avail as object && ops as object != used as object
      && info as object != avail as object && info as object != used as object && avail != used
      && queue.free as object !in {ops as object, info, avail, used}
      && queue.desc as object !in {ops as object, info, avail, used}
    }

    // The fields hold what the state of the protocol says.
    ghost predicate Shows()
      reads this, queue.free, queue.desc, ops, info, avail, used
    {
      s.driver == Driver(queue.free[..], queue.desc[..], ops[..], info[..], avail[..], availIdx, usedIdx)
      && s.device == Device(disk, taken, pending, used[..], deviceIdx, stored) && s.bufs == bufs
    }

    ghost predicate Valid()
      reads this, queue.free, queue.desc, ops, info, avail, used
    {
      Apart() && Shows() && OnTrail()
    }

    ghost predicate OnTrail()
      reads this
    {
      Sized(s) && !s.fault && Legal(Initial(start), trail) && s == After(Initial(start), trail)
    }

    // As virtio_disk_init leaves things.
    constructor (image: seq<Half>)
      ensures Valid() && trail == [] && start == image
      ensures fresh(queue) && fresh(queue.free) && fresh(queue.desc) && fresh(ops) && fresh(info) && fresh(avail)
              && fresh(used)
    {
      queue := new VirtioDisk();
      ops := new Header[NUM](_ => Header(0, 0));
      info := new Info[NUM](_ => Info(None, 0));
      avail := new nat[NUM](_ => 0);
      used := new nat[NUM](_ => 0);
      availIdx, usedIdx, deviceIdx, bufs := 0, 0, 0, map[];
      disk, taken, pending, stored := image, 0, [], false;
      s, start, trail := Initial(image), image, [];
    }

    ghost method Do(step: Step)
      requires OnTrail() && Enabled(s, step)
      modifies `s, `trail
      ensures OnTrail() && s == Next(old(s), step) && trail == old(trail) + [step]
    {
      LegalSnoc(Initial(start), trail, step);
      RunSized(start, trail + [step]);
      s, trail := Next(s, step), trail + [step];
    }

    // The lock and alloc3_desc; with the lock held the loop around it ends at once.
    method Allocate(call: Call) returns (idx: array<int>)
      requires Valid() && s.stage.Idle? && call.buf in bufs && bufs[call.buf].data == call.data
      modifies this, queue.free, queue.desc
      ensures Valid() && fresh(idx) && idx.Length == 3
      ensures trail == old(trail) + [Step.Acquire(call, old(bufs)[call.buf]), Step.Allocate]
      ensures At(s, Allocated) && s.stage.call == call && forall k :: 0 <= k < 3 ==> idx[k] == s.stage.idx[k]
    {
      idx := new int[3];
      assert bufs[call.buf := bufs[call.buf]] == bufs;
      RunIdle(start, trail);
      Do(Step.Acquire(call, bufs[call.buf]));
      var r := queue.Alloc3Desc(idx);
      Do(Step.Allocate);
    }

    // The three descriptors: a header of 16 bytes, 1024 bytes of data, one byte of status.
    method WriteChain(idx: array<int>, b: nat, write: bool)
      requires queue.Valid() && idx.Length == 3 && forall k :: 0 <= k < 3 ==> 0 <= idx[k] < NUM
      modifies queue.desc
      ensures queue.desc[..] == Format(old(queue.desc[..]), idx[0], idx[1], idx[2], b, write)
      ensures idx[0] != idx[1] && idx[1] != idx[2] && idx[0] != idx[2] ==>
                && queue.desc[idx[0]] == Desc(HeaderAt(idx[0]), 16, 1, idx[1])
                && queue.desc[idx[1]] == Desc(DataOf(b), 1024, if write then 1 else 3, idx[2])
                && queue.desc[idx[2]] == Desc(StatusAt(idx[0]), 1, 2, 0)
      ensures forall i :: 0 <= i < NUM && i != idx[0] && i != idx[1] && i != idx[2] ==>
                queue.desc[i] == old(queue.desc[i])
    {
      queue.desc[idx[0]] := Desc(HeaderAt(idx[0]), REQUEST_SIZE, F_NEXT, idx[1]);
      queue.desc[idx[1]] := Desc(DataOf(b), BLOCK_SIZE, (if write then 0 else F_WRITE) + F_NEXT, idx[2]);
      queue.desc[idx[2]] := Desc(StatusAt(idx[0]), 1, F_WRITE, 0);
    }

    // The header, the chain and the registered buffer.
    method Describe(idx: array<int>, b: nat, blockno: u32, write: bool)
      requires Valid() && At(s, Allocated) && idx.Length == 3 && Requests(s.stage.call, b, blockno, write)
      requires forall k :: 0 <= k < 3 ==> idx[k] == s.stage.idx[k]
      modifies `bufs, `s, `trail, ops, info, queue.desc
      ensures Valid() && trail == old(trail) + [Step.FormatChain] && s == Next(old(s), Step.FormatChain)
    {
      ops[idx[0]] := Header(if write then TYPE_OUT else TYPE_IN, Sector(blockno));
      WriteChain(idx, b, write);
      bufs := bufs[b := bufs[b].(disk := true)];
      info[idx[0]] := Info(Some(b), PENDING);
      Do(Step.FormatChain);
    }

    // The head goes into the ring, and the index moves.
    method Announce(head: nat)
      requires Valid() && At(s, Formatted) && head == s.stage.idx[0]
      modifies `availIdx, `s, `trail, avail
      ensures Valid() && At(s, Waiting) && s.stage.call == old(s).stage.call && s.stage.idx == old(s).stage.idx
      ensures trail == old(trail) + [Step.StoreHead, Step.Submit]
    {
      avail[availIdx % NUM] := head;
      Do(Step.StoreHead);
      availIdx := Bump(availIdx);
      Do(Step.Submit);
    }

    // virtio_disk_rw up to the busy wait.
    method Submit(call: Call) returns (idx: array<int>)
      requires Valid() && s.stage.Idle? && call.buf in bufs && bufs[call.buf].data == call.data
      modifies this, queue.free, queue.desc, ops, info, avail
      ensures Valid() && At(s, Waiting) && s.stage.call == call && fresh(idx) && idx.Length == 3
      ensures idx[0] == s.stage.idx[0]
      ensures trail == old(trail) + [Step.Acquire(call, old(bufs)[call.buf]), Step.Allocate] + [Step.FormatChain]
                       + [Step.StoreHead, Step.Submit]
    {
      idx := Allocate(call);
      Describe(idx, call.buf, call.blockno, call.write);
      Announce(idx[0]);
    }

    // virtio_disk_rw after the busy wait.
    method Finish(head: nat)
      requires Valid() && At(s, Finished) && head == s.stage.idx[0]
      modifies this, queue.free, queue.desc, info
      ensures Valid() && s.stage.Idle? && trail == old(trail) + [Step.Clear, Step.Release]
    {
      info[head] := info[head].(buf := None);
      Do(Step.Clear);
      RunCleared(start, trail);
      var panic := queue.FreeChain(head, s.stage.idx);
      Do(Step.Release);
    }

    // ---------- The device ----------

    // What the device leaves as it was at t.
    ghost predicate Undisturbed(t: State)
      reads this
    {
      s.handler == t.handler && s.stage == t.stage && s.driver.usedIdx == t.driver.usedIdx
      && s.n.submitted == t.n.submitted && s.n.acked == t.n.acked && s.n.reaped == t.n.reaped
      && s.bufs.Keys == t.bufs.Keys
    }

    method DeviceTakes()
      requires Valid()
      modifies this
      ensures Valid() && Undisturbed(old(s)) && Others(trail) == Others(old(trail)) && usedIdx == old(usedIdx)
    {
      if taken != availIdx {
        pending := pending + [Pending(avail[taken % NUM], false)];
        taken := Bump(taken);
        Do(Step.Take);
      }
    }

    // The transfer of a request taken, with any status, and anything left behind by one that fails.
    method DeviceServes(k: nat, status: nat, spoiled: Data)
      requires Valid()
      modifies this, info
      ensures Valid() && Undisturbed(old(s)) && Others(trail) == Others(old(trail)) && usedIdx == old(usedIdx)
    {
      var d := Driver(queue.free[..], queue.desc[..], ops[..], info[..], avail[..], availIdx, usedIdx);
      if k < |pending| && !pending[k].served {
        RunTaken(start, trail, k);
        var r := ReadChain(d, pending[k].head).value;
        if status != 0 || r.sector + Count(r) <= |disk| {
          ServeIs(s, k, r, status, spoiled);
          Transfer(k, r, status, spoiled);
        }
      }
    }

    method Transfer(k: nat, r: Request, status: nat, spoiled: Data)
      requires Valid() && Serving(s, k, r) && (status != 0 || r.sector + Count(r) <= |disk|)
      modifies `bufs, `disk, `pending, `s, `trail, info
      ensures Valid() && Enabled(old(s), Step.Serve(k, status, spoiled))
      ensures s == Next(old(s), Step.Serve(k, status, spoiled)) && Others(trail) == Others(old(trail))
    {
      var e := Event(r.sector, Count(r), r.write, r.buf, bufs[r.buf].data, status, spoiled);
      bufs := bufs[r.buf := bufs[r.buf].(data := DataAfter(disk, e))];
      disk := DiskAfter(disk, e);
      pending := pending[k := pending[k].(served := true)];
      info[r.info] := info[r.info].(status := status);
      assert info[..] == old(info[..])[r.info := old(info[..])[r.info].(status := status)];
      ServeIs(s, k, r, status, spoiled);
      Do(Step.Serve(k, status, spoiled));
    }

    method DeviceUses(k: nat)
      requires Valid()
      modifies this, used
      ensures Valid() && Undisturbed(old(s)) && Others(trail) == Others(old(trail)) && usedIdx == old(usedIdx)
    {
      if k < |pending| && pending[k].served && !stored {
        used[deviceIdx % NUM] := pending[k].head;
        stored := true;
        pending := pending[..k] + pending[k + 1..];
        Do(Step.Use(k));
      }
    }

    method DevicePublishes()
      requires Valid()
      modifies this
      ensures Valid() && Undisturbed(old(s)) && Others(trail) == Others(old(trail)) && usedIdx == old(usedIdx)
    {
      if stored {
        deviceIdx := Bump(deviceIdx);
        stored := false;
        Do(Step.Publish);
      }
    }

    // Any number of steps of the device, of any kind.
    method DeviceActs()
      requires Valid()
      modifies this, info, used
      ensures Valid() && Undisturbed(old(s)) && Others(trail) == Others(old(trail)) && usedIdx == old(usedIdx)
    {
      var times: nat := *;
      while times > 0
        invariant Valid() && Undisturbed(old(s)) && Others(trail) == Others(old(trail)) && usedIdx == old(usedIdx)
      {
        DeviceMoves();
        times := times - 1;
      }
    }

    method DeviceMoves()
      requires Valid()
      modifies this, info, used
      ensures Valid() && Undisturbed(old(s)) && Others(trail) == Others(old(trail)) && usedIdx == old(usedIdx)
    {
      var kind: nat, k: nat := *, *;
      if kind == 0 {
        DeviceTakes();
      } else if kind == 1 {
        var status: nat, spoiled: Data := *, *;
        DeviceServes(k, status, spoiled);
      } else if kind == 2 {
        DeviceUses(k);
      } else {
        DevicePublishes();
      }
    }

    // ---------- The interrupt handler ----------

    // The number in the entry the device has published.
    method Fetch() returns (id: nat)
      requires Valid() && s.handler.Polling? && usedIdx != deviceIdx
      modifies this, info, used
      ensures Valid() && Others(trail) == Others(old(trail)) + [Step.Poll, Step.Fetch] && s.handler == Looking(id)
      ensures s.n.submitted == old(s).n.submitted && s.n.reaped == old(s).n.reaped
    {
      Do(Step.Poll);
      DeviceActs();
      RunFetching(start, trail);
      id := used[usedIdx % NUM];
      Do(Step.Fetch);
    }

    // Whose buffer it is, ...
    method Look(id: nat) returns (b: nat)
      requires Valid() && s.handler == Looking(id)
      modifies this, info, used
      ensures Valid() && Others(trail) == Others(old(trail)) + [Step.Look]
      ensures s.handler == Handler.Named(id, Some(b)) && b in bufs
      ensures s.n.submitted == old(s).n.submitted && s.n.reaped == old(s).n.reaped
    {
      DeviceActs();
      RunLooking(start, trail);
      b := info[id].buf.value;
      Do(Step.Look);
    }

    // ... and whether its transfer went well.
    method Check(id: nat, b: nat) returns (ok: bool)
      requires Valid() && s.handler == Handler.Named(id, Some(b)) && b in bufs
      modifies this, info, used
      ensures Valid() && Others(trail) == Others(old(trail)) + [Step.Check]
      ensures s.handler.Seen? && s.handler.buf == Some(b) && ok == (s.handler.status == 0) && b in bufs
      ensures s.n.submitted == old(s).n.submitted && s.n.reaped == old(s).n.reaped
    {
      DeviceActs();
      RunNamed(start, trail);
      ok := info[id].status == 0;
      Do(Step.Check);
    }

    // The buffer gets the result, ...
    method Mark(b: nat, ok: bool)
      requires Valid() && s.handler.Seen? && s.handler.buf == Some(b) && ok == (s.handler.status == 0) && b in bufs
      modifies this, info, used
      ensures Valid() && Others(trail) == Others(old(trail)) + [Step.Mark] && s.handler == Marked(b) && b in bufs
      ensures s.n.submitted == old(s).n.submitted && s.n.reaped == old(s).n.reaped
    {
      DeviceActs();
      bufs := bufs[b := bufs[b].(successful := ok)];
      Do(Step.Mark);
    }

    // ... and goes back to its owner.
    method GiveBack(b: nat)
      requires Valid() && s.handler == Marked(b) && b in bufs
      modifies this, info, used
      ensures Valid() && Others(trail) == Others(old(trail)) + [Step.Ack] && s.handler.Acked?
      ensures s.n.submitted == old(s).n.submitted && s.n.reaped == old(s).n.reaped
    {
      DeviceActs();
      bufs := bufs[b := bufs[b].(disk := false)];
      Do(Step.Ack);
    }

    // The entry is passed.
    method Advance()
      requires Valid() && s.handler.Acked?
      modifies this, info, used
      ensures Valid() && Others(trail) == Others(old(trail)) + [Step.Advance]
      ensures s.handler.Polling? && s.n.submitted == old(s).n.submitted && s.n.reaped == old(s).n.reaped + 1
    {
      DeviceActs();
      usedIdx := Bump(usedIdx);
      Do(Step.Advance);
    }

    method Inspect() returns (b: nat, ok: bool)
      requires Valid() && s.handler.Polling? && usedIdx != deviceIdx
      modifies this, info, used
      ensures Valid() && Others(trail) == Others(old(trail)) + [Step.Poll, Step.Fetch, Step.Look, Step.Check]
      ensures s.handler.Seen? && s.handler.buf == Some(b) && ok == (s.handler.status == 0) && b in bufs
      ensures s.n.submitted == old(s).n.submitted && s.n.reaped == old(s).n.reaped
    {
      var id := Fetch();
      b := Look(id);
      ok := Check(id, b);
    }

    // One turn of the handler's loop.
    method Handle()
      requires Valid() && s.handler.Polling? && usedIdx != deviceIdx
      modifies this, info, used
      ensures Valid() && Others(trail) == Others(old(trail)) + Pass() && s.handler.Polling?
      ensures s.n.submitted == old(s).n.submitted && s.n.reaped == old(s).n.reaped + 1
    {
      var b, ok := Inspect();
      Mark(b, ok);
      GiveBack(b);
      Advance();
    }

    // m turns after before, with r entries reaped then.
    ghost predicate Turned(before: seq<Step>, r: nat, m: nat)
      reads this, queue.free, queue.desc, ops, info, avail, used
    {
      Valid() && s.handler.Polling? && s.n.reaped == r + m <= s.n.submitted
      && Others(trail) == before + [Step.Enter] + Passes(m)
    }

    method Begin()
      requires Valid() && s.handler.Off?
      modifies this, info, used
      ensures Turned(Others(old(trail)), old(s).n.reaped, 0)
    {
      Do(Step.Enter);
      DeviceActs();
      RunLevel(start, trail);
    }

    method Turn(ghost before: seq<Step>, ghost r: nat, ghost m: nat)
      requires Turned(before, r, m) && usedIdx != deviceIdx
      modifies this, info, used
      ensures Turned(before, r, m + 1) && s.n.submitted == old(s).n.submitted
    {
      Handle();
      DeviceActs();
      RunLevel(start, trail);
    }

    method End(ghost before: seq<Step>, ghost r: nat, ghost m: nat)
      requires Turned(before, r, m) && usedIdx == deviceIdx
      modifies `s, `trail
      ensures Valid() && s.handler.Off? && r + m == s.n.reaped == s.n.published
      ensures Others(trail) == before + [Step.Enter] + Passes(m) + [Step.Poll]
    {
      RunLevel(start, trail);
      Do(Step.Poll);
    }

    // virtio_disk_intr, with the device at work all the time: it ends, and its steps are so many turns of the
    // loop and a last look that finds it level with the device.
    method Interrupt()
      requires Valid() && s.handler.Off?
      modifies this, info, used
      ensures Valid() && s.handler.Off? && s.n.reaped == s.n.published && old(s).n.reaped <= s.n.reaped
      ensures Others(trail)
           == Others(old(trail)) + [Step.Enter] + Passes(s.n.reaped - old(s).n.reaped) + [Step.Poll]
    {
      ghost var before, r, m := Others(trail), s.n.reaped, 0;
      Begin();
      while usedIdx != deviceIdx
        invariant Turned(before, r, m)
        decreases s.n.submitted - s.n.reaped
      {
        Turn(before, r, m);
        m := m + 1;
      }
      End(before, r, m);
    }
  }

  // The steps of everyone but the device.
  function Others(steps: seq<Step>): seq<Step> {
    if steps == [] then []
    else
      var last := steps[|steps| - 1];
      Others(steps[..|steps| - 1]) + if OfDevice(last) then [] else [last]
  }

  // The handler's steps for one entry of the used ring, and for m of them.
  function Pass(): seq<Step> {
    [Step.Poll, Step.Fetch, Step.Look, Step.Check, Step.Mark, Step.Ack, Step.Advance]
  }

  function Passes(m: nat): seq<Step> { if m == 0 then [] else Passes(m - 1) + Pass() }

  predicate Requests(call: Call, b: nat, blockno: u32, write: bool) {
    call.buf == b && call.blockno == blockno && call.write == write
  }

  // What the protocol's invariant gives at the places where the code relies on it.

  lemma RunSized(disk: seq<Half>, trail: seq<Step>)
    requires Legal(Initial(disk), trail)
    ensures Sized(After(Initial(disk), trail)) && !After(Initial(disk), trail).fault
  {
    RunKeeps(Initial(disk), trail, disk);
  }

  lemma RunIdle(disk: seq<Half>, trail: seq<Step>)
    requires Legal(Initial(disk), trail) && After(Initial(disk), trail).stage.Idle?
    ensures var d := After(Initial(disk), trail).driver;
            FreeIsZero(d.free, d.desc) && FreeCount(d.free) == NUM
  {
    RunKeeps(Initial(disk), trail, disk);
    CountAll(After(Initial(disk), trail).driver.free);
  }

  lemma RunCleared(disk: seq<Half>, trail: seq<Step>)
    requires Legal(Initial(disk), trail) && At(After(Initial(disk), trail), Cleared)
    ensures var d, idx := After(Initial(disk), trail).driver, After(Initial(disk), trail).stage.idx;
            |idx| == 3 && |d.free| == |d.desc| && IsChain(d.desc, idx) && forall k :: 0 <= k < 3 ==> !d.free[idx[k]]
  {
    RunKeeps(Initial(disk), trail, disk);
    Released(After(Initial(disk), trail));
  }

  // r is what the device reads where the request it has taken k-th begins.
  ghost predicate Serving(s: State, k: nat, r: Request) {
    Sized(s) && k < |s.device.pending| && !s.device.pending[k].served
    && ReadChain(s.driver, s.device.pending[k].head) == Some(r) && r.buf in s.bufs && Proper(r) && r.info < NUM
  }

  lemma ServeIs(s: State, k: nat, r: Request, status: nat, spoiled: Data)
    requires Serving(s, k, r) && !s.fault && (status != 0 || r.sector + Count(r) <= |s.device.disk|)
    ensures Enabled(s, Step.Serve(k, status, spoiled))
    ensures var e := Event(r.sector, Count(r), r.write, r.buf, s.bufs[r.buf].data, status, spoiled);
            Next(s, Step.Serve(k, status, spoiled))
            == s.(device := s.device.(disk := DiskAfter(s.device.disk, e),
                                      pending := s.device.pending[k := s.device.pending[k].(served := true)]),
                  bufs := s.bufs[r.buf := s.bufs[r.buf].(data := DataAfter(s.device.disk, e))],
                  driver := s.driver.(info := s.driver.info[r.info := s.driver.info[r.info].(status := status)]),
                  events := s.events + [e])
  {
  }

  // What the device has taken is the request of the waiting caller.
  lemma TakenIs(s: State, disk: seq<Half>, k: nat)
    requires Inv(s, disk) && k < |s.device.pending| && !s.device.pending[k].served
    ensures var r := ReadChain(s.driver, s.device.pending[k].head); r.Some? && Serving(s, k, r.value)
  {
    SeenChain(s);
  }

  lemma RunTaken(disk: seq<Half>, trail: seq<Step>, k: nat)
    requires Legal(Initial(disk), trail)
    requires var s := After(Initial(disk), trail); k < |s.device.pending| && !s.device.pending[k].served && Sized(s)
    ensures var s := After(Initial(disk), trail);
            var r := ReadChain(s.driver, s.device.pending[k].head); r.Some? && Serving(s, k, r.value)
  {
    RunKeeps(Initial(disk), trail, disk);
    TakenIs(After(Initial(disk), trail), disk, k);
  }

  lemma RunFetching(disk: seq<Half>, trail: seq<Step>)
    requires Legal(Initial(disk), trail) && After(Initial(disk), trail).handler.Fetching?
    ensures var s := After(Initial(disk), trail);
            Sized(s) && s.stage.Busy? && |s.stage.idx| == 3
            && s.device.usedRing[s.driver.usedIdx % NUM] == s.stage.idx[0]
  {
    RunKeeps(Initial(disk), trail, disk);
    Slot(After(Initial(disk), trail).n.reaped);
  }

  lemma RunLooking(disk: seq<Half>, trail: seq<Step>)
    requires Legal(Initial(disk), trail) && After(Initial(disk), trail).handler.Looking?
    ensures var s := After(Initial(disk), trail);
            Sized(s) && s.handler.id < NUM && s.driver.info[s.handler.id].buf.Some?
            && s.driver.info[s.handler.id].buf.value in s.bufs
  {
    RunKeeps(Initial(disk), trail, disk);
  }

  lemma RunNamed(disk: seq<Half>, trail: seq<Step>)
    requires Legal(Initial(disk), trail) && After(Initial(disk), trail).handler.Named?
    ensures Sized(After(Initial(disk), trail)) && After(Initial(disk), trail).handler.id < NUM
  {
    RunKeeps(Initial(disk), trail, disk);
  }

  lemma RunLevel(disk: seq<Half>, trail: seq<Step>)
    requires Legal(Initial(disk), trail) && After(Initial(disk), trail).handler.Polling?
    ensures var s := After(Initial(disk), trail);
            s.n.reaped <= s.n.published <= s.n.submitted
            && (s.driver.usedIdx == s.device.usedIdx <==> s.n.reaped == s.n.published)
  {
    RunKeeps(Initial(disk), trail, disk);
    var s := After(Initial(disk), trail);
    VirtioProtocol.Apart(s.n.published, s.n.reaped);
  }
}
