// Under any fair schedule a call of virtio_disk_rw gets out of its busy wait.

module VirtioFairness {
  import opened VirtioProtocol

  // An endless run: the states it goes through and the steps it takes.
  ghost predicate IsRun(run: nat -> State, sched: nat -> Step) {
    forall i: nat :: Follows(run, sched, i)
  }

  ghost predicate Follows(run: nat -> State, sched: nat -> Step, i: nat) {
    Enabled(run(i), sched(i)) && run(i + 1) == Next(run(i), sched(i))
  }

  // At k the device takes a step, or has none to take; and so for the handler.
  ghost predicate DeviceMoves(s: State, step: Step) {
    OfDevice(step) || forall other :: OfDevice(other) ==> !Enabled(s, other)
  }

  ghost predicate HandlerMoves(s: State, step: Step) {
    OfHandler(step) || forall other :: OfHandler(other) ==> !Enabled(s, other)
  }

  ghost function DeviceTimes(run: nat -> State, sched: nat -> Step): nat -> bool {
    (k: nat) => DeviceMoves(run(k), sched(k))
  }

  ghost function HandlerTimes(run: nat -> State, sched: nat -> Step): nat -> bool {
    (k: nat) => HandlerMoves(run(k), sched(k))
  }

  ghost predicate Later(times: nat -> bool, k: nat) {
    exists m: nat :: k <= m && times(m)
  }

  // Neither is kept from a step that it could take for ever.
  ghost predicate Fair(run: nat -> State, sched: nat -> Step) {
    forall k: nat :: Later(DeviceTimes(run, sched), k) && Later(HandlerTimes(run, sched), k)
  }

  // While a request is in flight no step leads away from its end: the device's steps bring it nearer
  // to publication, the handler's, once it is published, to acknowledgement.
  lemma Nearer(s: State, step: Step, disk: seq<Half>)
    requires Inv(s, disk) && InFlight(s) && Enabled(s, step)
    ensures var t := Next(s, step);
            At(t, Waiting)
            && (InFlight(t) ==>
                  && DeviceLeft(t) <= DeviceLeft(s)
                  && (OfDevice(step) ==> DeviceLeft(t) < DeviceLeft(s))
                  && (DeviceLeft(s) == 0 ==> HandlerLeft(t.handler) <= HandlerLeft(s.handler))
                  && (DeviceLeft(s) == 0 && OfHandler(step) ==> HandlerLeft(t.handler) < HandlerLeft(s.handler)))
  {
    if OfDevice(step) {
      DeviceStep(s, step, disk);
    } else if OfHandler(step) {
      HandlerStep(s, step, disk);
    } else {
      DriverWaits(s, step, disk);
      assert false;
    }
  }

  lemma DriverWaits(s: State, step: Step, disk: seq<Half>)
    requires Inv(s, disk) && InFlight(s) && Enabled(s, step)
    ensures OfDevice(step) || OfHandler(step)
  {
  }

  lemma DeviceStep(s: State, step: Step, disk: seq<Half>)
    requires Inv(s, disk) && InFlight(s) && Enabled(s, step) && OfDevice(step)
    ensures var t := Next(s, step);
            At(t, Waiting) && InFlight(t) && DeviceLeft(t) < DeviceLeft(s) && t.handler == s.handler
  {
    Apart(s.n.submitted, s.n.taken);
    if step.Serve? { Served(s, step, disk); }
  }

  lemma HandlerStep(s: State, step: Step, disk: seq<Half>)
    requires Inv(s, disk) && InFlight(s) && Enabled(s, step) && OfHandler(step)
    ensures var t := Next(s, step);
            At(t, Waiting)
            && (InFlight(t) ==>
                  DeviceLeft(t) == DeviceLeft(s)
                  && (DeviceLeft(s) == 0 ==> HandlerLeft(t.handler) < HandlerLeft(s.handler)))
  {
    HandlerStays(s, step, disk);
    if DeviceLeft(s) == 0 && !step.Ack? { HandlerGoesOn(s, step, disk); }
  }

  lemma HandlerStays(s: State, step: Step, disk: seq<Half>)
    requires Inv(s, disk) && InFlight(s) && Enabled(s, step) && OfHandler(step)
    ensures var t := Next(s, step);
            At(t, Waiting) && t.device == s.device
            && t.n == s.n.(acked := if step.Ack? then s.n.acked + 1 else s.n.acked, reaped := t.n.reaped)
  {
  }

  lemma HandlerGoesOn(s: State, step: Step, disk: seq<Half>)
    requires Inv(s, disk) && InFlight(s) && Enabled(s, step) && OfHandler(step) && DeviceLeft(s) == 0 && !step.Ack?
    ensures HandlerLeft(Next(s, step).handler) < HandlerLeft(s.handler)
  {
    if s.handler.Polling? { PollFinds(s, disk); }
  }

  // ---------- A measure in two parts ----------

  // While ok lasts, the moves by one side bring a down; when a is down to 0, those by the other bring b down.
  ghost predicate Falls(ok: nat -> bool, a: nat -> nat, b: nat -> nat, byA: nat -> bool, byB: nat -> bool, k: nat) {
    ok(k) && ok(k + 1) ==>
      && a(k + 1) <= a(k)
      && (byA(k) && a(k) > 0 ==> a(k + 1) < a(k))
      && (a(k) == 0 ==> b(k + 1) <= b(k) && (byB(k) ==> b(k + 1) < b(k)))
  }

  // Up to m ok ends, or the measure has not grown.
  lemma {:induction false} Stretch(ok: nat -> bool, a: nat -> nat, b: nat -> nat, byA: nat -> bool, byB: nat -> bool,
                                   i: nat, m: nat)
    returns (j: nat)
    requires i <= m && ok(i) && forall k: nat :: i <= k ==> Falls(ok, a, b, byA, byB, k)
    ensures i <= j <= m && forall k: nat :: i <= k < j ==> ok(k)
    ensures ok(j) ==> j == m && a(m) <= a(i) && (a(i) == 0 ==> b(m) <= b(i))
    decreases m - i
  {
    if i == m { return i; }
    j := Stretch(ok, a, b, byA, byB, i, m - 1);
    if ok(j) {
      assert Falls(ok, a, b, byA, byB, j);
      j := m;
    }
  }

  // When both sides keep moving, ok ends; j is the first time at which it is over.
  lemma {:induction false} Descend(ok: nat -> bool, a: nat -> nat, b: nat -> nat, byA: nat -> bool, byB: nat -> bool,
                                   i: nat)
    returns (j: nat)
    requires forall k: nat :: i <= k ==> Falls(ok, a, b, byA, byB, k)
    requires forall k: nat :: i <= k ==> Later(byA, k) && Later(byB, k)
    ensures i <= j && !ok(j) && forall k: nat :: i <= k < j ==> ok(k)
    decreases a(i), b(i)
  {
    if !ok(i) { return i; }
    assert Later(byA, i) && Later(byB, i);
    var m: nat :| i <= m && if a(i) > 0 then byA(m) else byB(m);
    j := Stretch(ok, a, b, byA, byB, i, m);
    if ok(j) {
      assert Falls(ok, a, b, byA, byB, m);
      if ok(m + 1) {
        j := Descend(ok, a, b, byA, byB, m + 1);
      } else {
        j := m + 1;
      }
    }
  }

  lemma {:induction false} Carry(holds: nat -> bool, i: nat, j: nat)
    requires i <= j && holds(i) && forall k: nat :: i <= k < j && holds(k) ==> Goes(holds, k)
    ensures holds(j)
    decreases j - i
  {
    if i < j {
      assert Goes(holds, i);
      Carry(holds, i + 1, j);
    }
  }

  ghost predicate Goes(holds: nat -> bool, k: nat) { holds(k + 1) }

  // ---------- Every fair run ----------

  ghost function Sound(run: nat -> State, disk: seq<Half>): nat -> bool { (k: nat) => Inv(run(k), disk) }

  ghost function Waits(run: nat -> State, disk: seq<Half>): nat -> bool {
    (k: nat) => Inv(run(k), disk) && At(run(k), Waiting)
  }

  lemma SoundStep(s: State, step: Step, t: State, disk: seq<Half>)
    requires Inv(s, disk) && Enabled(s, step) && t == Next(s, step)
    ensures Inv(t, disk)
  {
    StepKeeps(s, step, disk);
  }

  lemma WaitsStep(s: State, step: Step, t: State, disk: seq<Half>)
    requires Inv(s, disk) && InFlight(s) && Enabled(s, step) && t == Next(s, step)
    ensures At(t, Waiting)
  {
    Nearer(s, step, disk);
  }

  lemma RunKeeps(run: nat -> State, sched: nat -> Step, disk: seq<Half>, i: nat, j: nat)
    requires IsRun(run, sched) && Sound(run, disk)(i) && i <= j
    ensures Sound(run, disk)(j)
  {
    forall k: nat | i <= k < j && Sound(run, disk)(k) ensures Goes(Sound(run, disk), k) {
      assert Follows(run, sched, k);
      SoundStep(run(k), sched(k), run(k + 1), disk);
    }
    Carry(Sound(run, disk), i, j);
  }

  lemma WaitKeeps(run: nat -> State, sched: nat -> Step, disk: seq<Half>, i: nat, j: nat)
    requires IsRun(run, sched) && Waits(run, disk)(i) && i <= j && forall k: nat :: i <= k < j ==> InFlight(run(k))
    ensures Waits(run, disk)(j)
  {
    forall k: nat | i <= k < j && Waits(run, disk)(k) ensures Goes(Waits(run, disk), k) {
      assert Follows(run, sched, k);
      SoundStep(run(k), sched(k), run(k + 1), disk);
      WaitsStep(run(k), sched(k), run(k + 1), disk);
    }
    Carry(Waits(run, disk), i, j);
  }

  lemma HasSteps(s: State, disk: seq<Half>)
    requires Inv(s, disk) && InFlight(s)
    ensures DeviceLeft(s) > 0 ==> exists step :: OfDevice(step) && Enabled(s, step)
    ensures exists step :: OfHandler(step) && Enabled(s, step)
  {
    if DeviceLeft(s) > 0 {
      DeviceNearer(s, disk);
      assert OfDevice(Following(s)) && Enabled(s, Following(s));
    }
    assert OfHandler(NextOfHandler(s.handler)) && Enabled(s, NextOfHandler(s.handler));
  }

  ghost function Flying(run: nat -> State): nat -> bool { (k: nat) => InFlight(run(k)) }

  ghost function DevicePart(run: nat -> State): nat -> nat { (k: nat) => DeviceLeft(run(k)) }

  ghost function HandlerPart(run: nat -> State): nat -> nat { (k: nat) => HandlerLeft(run(k).handler) }

  lemma NearsAt(run: nat -> State, sched: nat -> Step, disk: seq<Half>, k: nat)
    requires Follows(run, sched, k) && Inv(run(k), disk)
    ensures Falls(Flying(run), DevicePart(run), HandlerPart(run), DeviceTimes(run, sched), HandlerTimes(run, sched), k)
  {
    if InFlight(run(k)) {
      HasSteps(run(k), disk);
      Nearer(run(k), sched(k), disk);
    }
  }

  // The first time that no request is in flight.
  lemma Lands(run: nat -> State, sched: nat -> Step, disk: seq<Half>, i: nat) returns (j: nat)
    requires IsRun(run, sched) && Fair(run, sched) && Inv(run(i), disk)
    ensures i <= j && !InFlight(run(j)) && forall k: nat :: i <= k < j ==> InFlight(run(k))
  {
    var ok, a, b := Flying(run), DevicePart(run), HandlerPart(run);
    var byA, byB := DeviceTimes(run, sched), HandlerTimes(run, sched);
    forall k: nat | i <= k ensures Falls(ok, a, b, byA, byB, k) {
      RunKeeps(run, sched, disk, i, k);
      assert Follows(run, sched, k);
      NearsAt(run, sched, disk, k);
    }
    j := Descend(ok, a, b, byA, byB, i);
    forall k: nat | i <= k < j ensures InFlight(run(k)) { assert ok(k); }
  }

  lemma MayLeave(s: State, disk: seq<Half>)
    requires Inv(s, disk) && At(s, Waiting) && !InFlight(s)
    ensures Enabled(s, Leave)
  {
  }

  // Whenever a caller waits, under every fair schedule there comes a time at which it may go on, and
  // until then its request is in flight.
  lemma WaitEndsFairly(run: nat -> State, sched: nat -> Step, disk: seq<Half>, i: nat) returns (j: nat)
    requires IsRun(run, sched) && Fair(run, sched) && Inv(run(i), disk) && At(run(i), Waiting)
    ensures i <= j && Enabled(run(j), Leave) && forall k: nat :: i <= k < j ==> InFlight(run(k))
  {
    j := Lands(run, sched, disk, i);
    WaitKeeps(run, sched, disk, i, j);
    MayLeave(run(j), disk);
  }
}
