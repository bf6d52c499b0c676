// proc.c on one hart: processes are created, then the scheduler goes round the table for ever. A
// switch between two contexts is one step; a timer interrupt or an exit gives the hart back.

module Schedulers {
  const NPROC := 64

  datatype ProcState = Unused | Used | Runnable | Running

  datatype Proc = Proc(state: ProcState, pid: nat, locked: bool)

  // Where the kernel's own context is: creating processes, or at some line of scheduler().
  datatype Place =
    | Creating
    | WantSched        // lock_acquire(&sched_lock)
    | WantProc         // lock_acquire(&p->lock)
    | Test             // p->state == RUNNABLE ?
    | Switch           // proc_exec(cpu's process, p)
    | Suspended        // inside sys_switch: p runs
    | FreeProc
    | FreeSched

  // tick counts the slots the scheduler has gone past; tick % NPROC is the slot it is at. Auxiliary:
  // the ticks at which it switched, and for each slot the tick since which it has been ready.
  datatype State = State(procs: seq<Proc>, cur: nat, schedLocked: bool, nextPid: nat, place: Place, tick: nat,
                         switches: seq<nat>, since: seq<nat>)

  function Slot(tick: nat): nat { tick % NPROC }

  // After boot(): slot 0 is the kernel's own process.
  function Initial(): State {
    State([Proc(Used, 1, false)] + seq(NPROC - 1, _ => Proc(Unused, 0, false)), 0, false, 2, Creating, 0, [],
          seq(NPROC, _ => 0))
  }

  // Create takes the lowest unused slot; Exec makes a created process runnable, or fails because its
  // file is no program.
  datatype Step = Create(slot: nat) | Exec(slot: nat, program: bool) | Start | Go | Timer | Yield

  // RUNNABLE or RUNNING.
  predicate Ready(p: Proc) { p.state == Runnable || p.state == Running }

  predicate Sized(s: State) { |s.procs| == |s.since| == NPROC && s.cur < NPROC }

  predicate Enabled(s: State, step: Step) {
    Sized(s) &&
    match step
    case Create(k) =>
      s.place == Creating && k < NPROC && s.procs[k].state == Unused
      && forall j :: 0 <= j <= k ==> !s.procs[j].locked && (j < k ==> s.procs[j].state != Unused)
    case Exec(k, _) => s.place == Creating && 0 < k < NPROC && s.procs[k].state != Unused && !s.procs[k].locked
    case Start => s.place == Creating
    case Go =>
      s.place != Creating && s.place != Suspended
      && (s.place == WantSched ==> !s.schedLocked)
      && (s.place == WantProc ==> !s.procs[Slot(s.tick)].locked)
    case Timer => s.place != Suspended
    case Yield => s.place == Suspended
  }

  // proc_exec: the processor goes from the current process to next.
  function ProcExec(s: State, next: nat): State
    requires Sized(s) && next < NPROC
  {
    s.(cur := next, procs := s.procs[s.cur := s.procs[s.cur].(state := Runnable)])
  }

  // The kernel's process becomes ready the first time it is switched away from or interrupted.
  function Noticed(s: State): State
    requires Sized(s)
  {
    if Ready(s.procs[0]) then s else s.(since := s.since[0 := Tested(s)])
  }

  // How many slots have been looked at.
  function Tested(s: State): nat {
    s.tick + if s.place == Switch || s.place == Suspended || s.place == FreeProc || s.place == FreeSched then 1 else 0
  }

  function Next(s: State, step: Step): State
    requires Enabled(s, step)
  {
    match step
    case Create(k) =>
      s.(procs := s.procs[k := s.procs[k].(state := Used, pid := s.nextPid)], nextPid := s.nextPid + 1)
    case Exec(k, program) =>
      s.(procs := s.procs[k := if program then s.procs[k].(state := Runnable) else s.procs[k].(locked := true)])
    case Start => s.(place := WantSched)
    case Go => Gone(s)
    case Timer => ProcExec(Noticed(s), 0)
    case Yield => ProcExec(s, 0).(place := FreeProc)
  }

  // One line of scheduler().
  function Gone(s: State): State
    requires Enabled(s, Go)
  {
    var i := Slot(s.tick);
    match s.place
    case WantSched => s.(schedLocked := true, place := WantProc)
    case WantProc => s.(procs := s.procs[i := s.procs[i].(locked := true)], place := Test)
    case Test =>
      if s.procs[i].state == Runnable then s.(procs := s.procs[i := s.procs[i].(state := Running)], place := Switch)
      else s.(place := FreeProc)
    case Switch =>
      var t := ProcExec(Noticed(s), i).(switches := s.switches + [s.tick]);
      if i == 0 then t.(place := FreeProc) else t.(place := Suspended)
    case FreeProc => s.(procs := s.procs[i := s.procs[i].(locked := false)], place := FreeSched)
    case FreeSched => s.(schedLocked := false, place := WantSched, tick := s.tick + 1)
    case _ => s
  }

  // ---------- The invariant ----------

  predicate Holding(place: Place) { place == Test || place == Switch || place == Suspended || place == FreeProc }

  // How many slots have been switched to or skipped.
  function Passed(s: State): nat {
    s.tick + if s.place == Suspended || s.place == FreeProc || s.place == FreeSched then 1 else 0
  }

  predicate Control(s: State) {
    Sized(s)
    && s.cur == (if s.place == Suspended then Slot(s.tick) else 0)
    && (s.place == Suspended ==> Slot(s.tick) != 0 && s.procs[Slot(s.tick)].state == Running)
    && (s.place == Switch ==> Ready(s.procs[Slot(s.tick)])
                              && (Slot(s.tick) != 0 ==> s.procs[Slot(s.tick)].state == Running))
    && (forall k :: 0 <= k < NPROC && s.procs[k].state == Running ==>
          k == Slot(s.tick) && (s.place == Switch || s.place == Suspended))
    && (s.schedLocked <==> Holding(s.place) || s.place == WantProc || s.place == FreeSched)
    && (Holding(s.place) ==> s.procs[Slot(s.tick)].locked)
    && (s.place == Creating ==> s.tick == 0)
  }

  predicate Pids(s: State) {
    Sized(s)
    && (forall k :: 0 <= k < NPROC && s.procs[k].state != Unused ==> s.procs[k].pid < s.nextPid)
    && (forall j, k :: 0 <= j < k < NPROC && s.procs[j].state != Unused && s.procs[k].state != Unused ==>
          s.procs[j].pid != s.procs[k].pid)
  }

  // Slot Slot(t) was ready when the scheduler came to it at t.
  predicate Due(procs: seq<Proc>, since: seq<nat>, t: nat)
    requires |procs| == |since| == NPROC
  {
    Ready(procs[Slot(t)]) && since[Slot(t)] <= t
  }

  predicate Increasing(xs: seq<nat>) { forall i, j :: 0 <= i < j < |xs| ==> xs[i] < xs[j] }

  // xs are exactly the ticks before passed at which the scheduler met a ready process.
  ghost predicate Records(procs: seq<Proc>, since: seq<nat>, xs: seq<nat>, passed: nat)
    requires |procs| == |since| == NPROC
  {
    Increasing(xs)
    && (forall i :: 0 <= i < |xs| ==> xs[i] < passed && Due(procs, since, xs[i]))
    && (forall t: nat :: t < passed && Due(procs, since, t) ==> t in xs)
  }

  ghost predicate History(s: State) {
    Sized(s)
    && Records(s.procs, s.since, s.switches, Passed(s))
    && (forall k :: 0 <= k < NPROC ==> s.since[k] <= Tested(s) && (k > 0 ==> s.since[k] == 0))
    && (s.place == Switch ==> s.since[Slot(s.tick)] <= s.tick)
    && s.procs[0].state != Unused
  }

  ghost predicate Inv(s: State) { Control(s) && Pids(s) && History(s) }

  lemma CreatingKeeps(s: State, step: Step)
    requires Inv(s) && Enabled(s, step) && s.place == Creating && (step.Create? || step.Exec? || step.Start?)
    ensures Inv(Next(s, step))
  {
  }

  lemma LockKeeps(s: State)
    requires Inv(s) && Enabled(s, Go) && (s.place == WantSched || s.place == WantProc)
    ensures Inv(Next(s, Go))
  {
  }

  lemma TestKeeps(s: State)
    requires Inv(s) && Enabled(s, Go) && s.place == Test
    ensures Inv(Next(s, Go))
  {
    var t := Next(s, Go);
    forall k: nat | k < Passed(t) && Due(t.procs, t.since, k) ensures k in t.switches {
      assert k < s.tick ==> Due(s.procs, s.since, k);
    }
  }

  lemma SwitchControls(s: State)
    requires Inv(s) && Enabled(s, Go) && s.place == Switch
    ensures Control(Next(s, Go)) && Pids(Next(s, Go))
  {
  }

  lemma SwitchRecords(s: State)
    requires Inv(s) && Enabled(s, Go) && s.place == Switch
    ensures History(Next(s, Go))
  {
    var t := Next(s, Go);
    forall k: nat | k <= s.tick ensures Due(t.procs, t.since, k) <==> Due(s.procs, s.since, k) {
      SwitchDue(s, k);
    }
    RecordsExtend(s.procs, s.since, t.procs, t.since, s.switches, s.tick);
  }

  // Switching makes nobody due at an earlier tick, and nobody less due.
  lemma SwitchDue(s: State, k: nat)
    requires Inv(s) && Enabled(s, Go) && s.place == Switch && k <= s.tick
    ensures Due(Next(s, Go).procs, Next(s, Go).since, k) <==> Due(s.procs, s.since, k)
  {
  }

  lemma RecordsExtend(procs: seq<Proc>, since: seq<nat>, procs': seq<Proc>, since': seq<nat>, xs: seq<nat>, tick: nat)
    requires |procs| == |since| == |procs'| == |since'| == NPROC
    requires Records(procs, since, xs, tick) && Due(procs, since, tick)
    requires forall k: nat :: k <= tick ==> (Due(procs', since', k) <==> Due(procs, since, k))
    ensures Records(procs', since', xs + [tick], tick + 1)
  {
  }

  lemma UnlockKeeps(s: State)
    requires Inv(s) && Enabled(s, Go) && (s.place == FreeProc || s.place == FreeSched)
    ensures Inv(Next(s, Go))
  {
  }

  lemma TimerKeeps(s: State)
    requires Inv(s) && Enabled(s, Timer)
    ensures Inv(Next(s, Timer))
  {
    var t := Next(s, Timer);
    forall k: nat | k < Passed(t) && Due(t.procs, t.since, k) ensures k in t.switches {
      assert Due(s.procs, s.since, k);
    }
  }

  lemma YieldKeeps(s: State)
    requires Inv(s) && Enabled(s, Yield)
    ensures Inv(Next(s, Yield))
  {
  }

  lemma StepKeeps(s: State, step: Step)
    requires Inv(s) && Enabled(s, step)
    ensures Inv(Next(s, step))
  {
    if step.Create? || step.Exec? || step.Start? {
      CreatingKeeps(s, step);
    } else if step == Timer {
      TimerKeeps(s);
    } else if step == Yield {
      YieldKeeps(s);
    } else if s.place == Test {
      TestKeeps(s);
    } else if s.place == Switch {
      SwitchControls(s);
      SwitchRecords(s);
    } else if s.place == FreeProc || s.place == FreeSched {
      UnlockKeeps(s);
    } else {
      LockKeeps(s);
    }
  }

  // ---------- Every run ----------

  predicate Legal(s: State, steps: seq<Step>)
    decreases steps
  {
    steps == [] || (Enabled(s, steps[0]) && Legal(Next(s, steps[0]), steps[1..]))
  }

  function After(s: State, steps: seq<Step>): State
    requires Legal(s, steps)
    decreases steps
  {
    if steps == [] then s else After(Next(s, steps[0]), steps[1..])
  }

  lemma {:induction false} RunKeeps(s: State, steps: seq<Step>)
    requires Inv(s) && Legal(s, steps)
    ensures Inv(After(s, steps))
    decreases steps
  {
    if steps != [] {
      StepKeeps(s, steps[0]);
      RunKeeps(Next(s, steps[0]), steps[1..]);
    }
  }

  // At most one process is RUNNING. Once it has been switched to it is the processor's current one,
  // and its lock and sched_lock are held; otherwise the kernel's process is current. Processes in use
  // have different pids.
  lemma {:induction false} Safe(steps: seq<Step>, j: nat, k: nat)
    requires Legal(Initial(), steps) && j < NPROC && k < NPROC
    ensures var s := After(Initial(), steps);
            && Sized(s)
            && (s.procs[j].state == Running && s.procs[k].state == Running ==> j == k)
            && (s.procs[k].state == Running ==> s.procs[k].locked && s.schedLocked)
            && (s.procs[k].state == Running && s.place != Switch ==> s.cur == k != 0)
            && (s.place != Suspended ==> s.cur == 0)
            && (j != k && s.procs[j].state != Unused && s.procs[k].state != Unused ==>
                  s.procs[j].pid != s.procs[k].pid)
  {
    RunKeeps(Initial(), steps);
  }

  // A process that becomes ready stays so, and the switches made stay on record.
  lemma {:induction false} RunGrows(s: State, steps: seq<Step>, k: nat)
    requires Inv(s) && Legal(s, steps) && k < NPROC && Ready(s.procs[k])
    ensures var t := After(s, steps);
            Inv(t) && s.switches <= t.switches && Ready(t.procs[k]) && t.since[k] == s.since[k]
    decreases steps
  {
    if steps != [] {
      StepKeeps(s, steps[0]);
      StepGrows(s, steps[0], k);
      RunGrows(Next(s, steps[0]), steps[1..], k);
    }
  }

  lemma StepGrows(s: State, step: Step, k: nat)
    requires Control(s) && Enabled(s, step) && k < NPROC && Ready(s.procs[k])
    ensures var t := Next(s, step);
            Sized(t) && s.switches <= t.switches && Ready(t.procs[k]) && t.since[k] == s.since[k]
  {
  }

  // The last switch was made in this visit.
  predicate JustSwitched(s: State) { s.switches != [] && s.switches[|s.switches| - 1] == s.tick }

  // b is the next switch to the process at slot k.
  predicate NextTo(s: State, first: nat, b: nat, k: nat) {
    first <= b < |s.switches| && Slot(s.switches[b]) == k && forall i :: first <= i < b ==> Slot(s.switches[i]) != k
  }

  // Between a switch to one process and the next switch to it, every other process that was ready at
  // the first is switched to exactly once.
  lemma {:induction false} RoundRobin(first: seq<Step>, rest: seq<Step>, b: nat, q: nat)
    requires Legal(Initial(), first) && Legal(After(Initial(), first), rest) && q < NPROC
    requires var s, t := After(Initial(), first), After(After(Initial(), first), rest);
             && Sized(s) && JustSwitched(s) && Ready(s.procs[q]) && Slot(s.tick) != q
             && NextTo(t, |s.switches|, b, Slot(s.tick))
    ensures var s, t := After(Initial(), first), After(After(Initial(), first), rest);
            OnceBetween(t.switches, |s.switches| - 1, b, q)
  {
    var s := After(Initial(), first);
    RunKeeps(Initial(), first);
    RunGrows(s, rest, q);
    RoundOf(After(s, rest), |s.switches| - 1, b, q);
  }

  lemma RoundOf(s: State, a: nat, b: nat, q: nat)
    requires Inv(s) && Apart(s, a, b, q)
    ensures OnceBetween(s.switches, a, b, q)
  {
    var i := Visited(s, a, b, q);
    OneRound(s, a, b);
    VisitedOnce(s.switches, a, b, q);
  }

  // Switches a and b go to one process with none between, and process q has been ready since the visit
  // of switch a.
  predicate Apart(s: State, a: nat, b: nat, q: nat) {
    a < b < |s.switches|
    && Slot(s.switches[a]) == Slot(s.switches[b])
    && (forall i :: a < i < b ==> Slot(s.switches[i]) != Slot(s.switches[a]))
    && q < |s.procs| && q != Slot(s.switches[a]) && q < |s.since|
    && Ready(s.procs[q]) && s.since[q] <= s.switches[a] + 1
  }

  // Exactly one of the switches between a and b goes to process q.
  predicate OnceBetween(xs: seq<nat>, a: nat, b: nat, q: nat) {
    a < b < |xs|
    && (exists i :: a < i < b && Slot(xs[i]) == q)
    && (forall i, j :: a < i < b && a < j < b && Slot(xs[i]) == q && Slot(xs[j]) == q ==> i == j)
  }

  lemma Visited(s: State, a: nat, b: nat, q: nat) returns (i: nat)
    requires Inv(s) && Apart(s, a, b, q)
    ensures a < i < b && Slot(s.switches[i]) == q
  {
    OneRound(s, a, b);
    var t0 := s.switches[a];
    var t := t0 + (q + NPROC - Slot(t0)) % NPROC;
    Ahead(t0, q);
    assert Due(s.procs, s.since, t);
    i := Position(s.switches, t, a, b);
  }

  lemma VisitedOnce(xs: seq<nat>, a: nat, b: nat, q: nat)
    requires Increasing(xs) && a < b < |xs| && xs[b] == xs[a] + NPROC
    ensures forall i, j :: a < i < b && a < j < b && Slot(xs[i]) == q && Slot(xs[j]) == q ==> i == j
  {
    forall i, j | a < i < b && a < j < b && Slot(xs[i]) == q && Slot(xs[j]) == q ensures i == j {
      SameRound(xs[a], xs[i], xs[j]);
    }
  }

  lemma Ahead(t0: nat, q: nat)
    requires q < NPROC && q != Slot(t0)
    ensures var t := t0 + (q + NPROC - Slot(t0)) % NPROC; Slot(t) == q && t0 < t < t0 + NPROC
  {
  }

  lemma SameRound(t: nat, u: nat, v: nat)
    requires t < u < t + NPROC && t < v < t + NPROC && Slot(u) == Slot(v)
    ensures u == v
  {
  }

  lemma NextRound(t: nat, u: nat)
    requires t < u <= t + NPROC && Slot(t) == Slot(u)
    ensures u == t + NPROC
  {
  }

  lemma Position(xs: seq<nat>, t: nat, a: nat, b: nat) returns (i: nat)
    requires Increasing(xs) && a < b < |xs| && xs[a] < t < xs[b] && t in xs
    ensures a < i < b && xs[i] == t
  {
    i :| 0 <= i < |xs| && xs[i] == t;
  }

  // Two switches to one process with none between are one time round the table apart.
  lemma OneRound(s: State, a: nat, b: nat)
    requires Inv(s) && a < b < |s.switches| && Slot(s.switches[a]) == Slot(s.switches[b])
    requires forall i :: a < i < b ==> Slot(s.switches[i]) != Slot(s.switches[a])
    ensures s.switches[b] == s.switches[a] + NPROC
  {
    var xs, t := s.switches, s.switches[a] + NPROC;
    assert Slot(t) == Slot(xs[a]);
    if xs[b] <= t {
      NextRound(xs[a], xs[b]);
    } else {
      assert Due(s.procs, s.since, xs[a]);
      assert Due(s.procs, s.since, t);
      var i := Position(xs, t, a, b);
    }
  }

  // ---------- Who is ready, and who runs ----------

  predicate Executed(steps: seq<Step>, k: nat) { exists i :: 0 <= i < |steps| && steps[i] == Exec(k, true) }

  lemma ExecutedTail(steps: seq<Step>, k: nat)
    requires steps != []
    ensures Executed(steps, k) <==> steps[0] == Exec(k, true) || Executed(steps[1..], k)
  {
    if i :| 0 < i < |steps| && steps[i] == Exec(k, true) { assert steps[1..][i - 1] == Exec(k, true); }
  }

  // In every run a created process is ready, from then on, exactly when a program has been executed on it.
  lemma {:induction false} ReadyExactly(steps: seq<Step>, k: nat)
    requires Legal(Initial(), steps) && 0 < k < NPROC
    ensures var s := After(Initial(), steps); Sized(s) && (Ready(s.procs[k]) <==> Executed(steps, k))
  {
    ReadyFrom(Initial(), steps, k);
  }

  lemma {:induction false} ReadyFrom(s: State, steps: seq<Step>, k: nat)
    requires Inv(s) && Legal(s, steps) && 0 < k < NPROC
    ensures var t := After(s, steps); Sized(t) && (Ready(t.procs[k]) <==> Ready(s.procs[k]) || Executed(steps, k))
    decreases steps
  {
    if steps != [] {
      StepKeeps(s, steps[0]);
      StepReadies(s, steps[0], k);
      ExecutedTail(steps, k);
      ReadyFrom(Next(s, steps[0]), steps[1..], k);
    }
  }

  lemma StepReadies(s: State, step: Step, k: nat)
    requires Inv(s) && Enabled(s, step) && 0 < k < NPROC
    ensures Ready(Next(s, step).procs[k]) <==> Ready(s.procs[k]) || step == Exec(k, true)
  {
  }

  // A switch from the kernel's process, to itself too, or a timer interrupt while it runs.
  predicate Left(s: State, steps: seq<Step>)
    requires Legal(s, steps)
    decreases steps
  {
    steps != [] && (steps[0] == Timer || (steps[0] == Go && s.place == Switch) || Left(Next(s, steps[0]), steps[1..]))
  }

  // The kernel's own process, which nobody executes, is ready once it has been left.
  lemma {:induction false} KernelReady(s: State, steps: seq<Step>)
    requires Inv(s) && Legal(s, steps)
    ensures var t := After(s, steps); Sized(t) && (Ready(t.procs[0]) <==> Ready(s.procs[0]) || Left(s, steps))
    decreases steps
  {
    if steps != [] {
      StepKeeps(s, steps[0]);
      KernelReady(Next(s, steps[0]), steps[1..]);
    }
  }

  // The hart is at the process of slot Slot(t), from the scheduler's visit at tick t.
  predicate Runs(s: State, t: nat) {
    Sized(s) && s.place == Suspended && s.tick == t && s.cur == Slot(t) && s.procs[s.cur].state == Running
  }

  // So it is at some point of the run.
  predicate Ran(s: State, steps: seq<Step>, t: nat)
    requires Legal(s, steps)
    decreases steps
  {
    Runs(s, t) || (steps != [] && Ran(Next(s, steps[0]), steps[1..], t))
  }

  // A switch is on record exactly for the visits in which the process has run.
  lemma {:induction false} RanFrom(s: State, steps: seq<Step>, t: nat)
    requires Inv(s) && Legal(s, steps) && Slot(t) != 0
    ensures t in After(s, steps).switches <==> t in s.switches || Ran(s, steps, t)
    decreases steps
  {
    RunsRecorded(s, t);
    if steps != [] {
      StepKeeps(s, steps[0]);
      StepRecords(s, steps[0], t);
      RanFrom(Next(s, steps[0]), steps[1..], t);
    }
  }

  lemma RunsRecorded(s: State, t: nat)
    requires Inv(s)
    ensures Runs(s, t) ==> t in s.switches
  {
    if Runs(s, t) { assert Due(s.procs, s.since, t); }
  }

  lemma StepRecords(s: State, step: Step, t: nat)
    requires Inv(s) && Enabled(s, step) && Slot(t) != 0
    ensures t in s.switches ==> t in Next(s, step).switches
    ensures t in Next(s, step).switches ==> t in s.switches || Runs(Next(s, step), t)
  {
  }

  // In every run, a process runs in a visit of the scheduler only if a program has been executed on it,
  // and in every visit to it that is over if one has.
  lemma {:induction false} RunsExactly(steps: seq<Step>, t: nat)
    requires Legal(Initial(), steps) && Slot(t) != 0
    ensures Ran(Initial(), steps, t) ==> Executed(steps, Slot(t)) && t <= After(Initial(), steps).tick
    ensures Executed(steps, Slot(t)) && t < After(Initial(), steps).tick ==> Ran(Initial(), steps, t)
  {
    var s := After(Initial(), steps);
    RunKeeps(Initial(), steps);
    RanFrom(Initial(), steps, t);
    ReadyFrom(Initial(), steps, Slot(t));
    assert t in s.switches <==> t < Passed(s) && Due(s.procs, s.since, t);
  }

  // So once a program has been executed on slot k, k runs in every complete pass over the table.
  lemma {:induction false} Dispatched(steps: seq<Step>, i: nat, k: nat, pass: nat)
    requires Legal(Initial(), steps) && i < |steps| && steps[i] == Exec(k, true)
    requires NPROC * (pass + 1) <= After(Initial(), steps).tick
    ensures k < NPROC && Ran(Initial(), steps, NPROC * pass + k)
  {
    ExecSlot(Initial(), steps, i, k);
    assert Slot(NPROC * pass + k) == k;
    RunsExactly(steps, NPROC * pass + k);
  }

  lemma {:induction false} ExecSlot(s: State, steps: seq<Step>, i: nat, k: nat)
    requires Legal(s, steps) && i < |steps| && steps[i] == Exec(k, true)
    ensures 0 < k < NPROC
    decreases steps
  {
    if i > 0 { ExecSlot(Next(s, steps[0]), steps[1..], i - 1, k); }
  }

  // ---------- Locks that stay ----------

  // Slot k is locked, and the scheduler has not come to it.
  predicate Locked(s: State, k: nat) {
    Sized(s) && k < NPROC && s.procs[k].locked && s.tick <= k
    && (s.place == Creating || s.place == WantSched || s.place == WantProc || s.tick < k)
  }

  lemma StuckStep(s: State, step: Step, k: nat)
    requires Inv(s) && Enabled(s, step) && Locked(s, k)
    ensures var t := Next(s, step);
            Locked(t, k) && forall i :: 0 <= i < |t.switches| ==> t.switches[i] < k || t.switches[i] in s.switches
  {
  }

  // exec keeps the process's lock when its file is no program: the scheduler never gets past it.
  lemma {:induction false} StuckAt(s: State, steps: seq<Step>, k: nat)
    requires Inv(s) && Legal(s, steps) && Locked(s, k)
    ensures var t := After(s, steps);
            t.tick <= k && forall i :: 0 <= i < |t.switches| ==> t.switches[i] < k || t.switches[i] in s.switches
    decreases steps
  {
    if steps != [] {
      StepKeeps(s, steps[0]);
      StuckStep(s, steps[0], k);
      StuckAt(Next(s, steps[0]), steps[1..], k);
    }
  }

  // So after exec of a file that is no program, at any time in any run, the scheduler never gets past
  // that slot, and switches to slots before it only, in its first pass.
  lemma {:induction false} FailedExec(steps: seq<Step>, i: nat, k: nat)
    requires Legal(Initial(), steps) && i < |steps| && steps[i] == Exec(k, false)
    ensures var t := After(Initial(), steps); t.tick <= k && forall j :: 0 <= j < |t.switches| ==> t.switches[j] < k
  {
    FailedFrom(Initial(), steps, i, k);
  }

  lemma NoneYet(s: State)
    requires Inv(s) && s.place == Creating
    ensures s.switches == []
  {
    NoneBelowZero(s.switches, Passed(s));
  }

  lemma NoneBelowZero(xs: seq<nat>, n: nat)
    requires forall i :: 0 <= i < |xs| ==> xs[i] < n
    ensures n == 0 ==> xs == []
  {
    if xs != [] { assert xs[0] < n; }
  }

  lemma {:induction false} FailedFrom(s: State, steps: seq<Step>, i: nat, k: nat)
    requires Inv(s) && Legal(s, steps) && i < |steps| && steps[i] == Exec(k, false)
    ensures var t := After(s, steps); t.tick <= k && forall j :: 0 <= j < |t.switches| ==> t.switches[j] < k
    decreases steps
  {
    var next := Next(s, steps[0]);
    StepKeeps(s, steps[0]);
    if i == 0 {
      NoneYet(next);
      StuckAt(next, steps[1..], k);
    } else {
      FailedFrom(next, steps[1..], i - 1, k);
    }
  }

  // Only the process being dispatched is locked.
  predicate Clean(s: State) {
    Sized(s) && forall k :: 0 <= k < NPROC && s.procs[k].locked ==> Holding(s.place) && k == Slot(s.tick)
  }

  predicate Programs(steps: seq<Step>) {
    forall i :: 0 <= i < |steps| && steps[i].Exec? ==> steps[i].program
  }

  lemma CleanKeeps(s: State, step: Step)
    requires Inv(s) && Clean(s) && Enabled(s, step) && (step.Exec? ==> step.program)
    ensures Clean(Next(s, step))
  {
  }

  // When every file was a program the scheduler is never blocked: it can go on, or the process
  // switched to can give the hart back.
  lemma {:induction false} NeverBlocked(s: State, steps: seq<Step>)
    requires Inv(s) && Clean(s) && Legal(s, steps) && Programs(steps)
    ensures var t := After(s, steps);
            Clean(t) && (t.place != Creating ==> Enabled(t, Go) || Enabled(t, Yield))
    decreases steps
  {
    if steps == [] {
      assert Control(s);
    } else {
      StepKeeps(s, steps[0]);
      CleanKeeps(s, steps[0]);
      assert forall i :: 0 <= i < |steps[1..]| ==> steps[1..][i] == steps[i + 1];
      NeverBlocked(Next(s, steps[0]), steps[1..]);
    }
  }

  lemma InitialInv()
    ensures Inv(Initial()) && Clean(Initial())
  {
  }

  // ---------- The functions of proc.c ----------

  // The slots a pass over the table switches to: those that are ready when the pass begins.
  function Slots(procs: seq<Proc>, n: nat): seq<nat>
    requires n <= |procs|
  {
    if n == 0 then [] else Slots(procs, n - 1) + (if procs[n - 1].state == Runnable then [n - 1] else [])
  }

  // Every runnable slot once, in the order of the table, and no other.
  lemma {:induction false} SlotsExactly(procs: seq<Proc>, n: nat)
    requires n <= |procs|
    ensures Increasing(Slots(procs, n))
    ensures forall k: nat :: k in Slots(procs, n) <==> k < n && procs[k].state == Runnable
  {
    if n > 0 {
      SlotsExactly(procs, n - 1);
      var xs, last := Slots(procs, n - 1), if procs[n - 1].state == Runnable then [n - 1] else [];
      assert forall k: nat :: k in xs + last <==> k in xs || k in last;
      assert forall i :: 0 <= i < |xs| ==> xs[i] in xs;
    }
  }

  predicate Shifted(ticks: seq<nat>, slots: seq<nat>, first: nat) {
    |ticks| == |slots| && forall i :: 0 <= i < |ticks| ==> ticks[i] == first + slots[i]
  }

  // The switches of a pass after one more visit.
  lemma OneMore(xs: seq<nat>, n: nat, slots: seq<nat>, t0: nat, p: nat, ready: bool)
    requires n <= |xs| && Shifted(xs[n..], slots, t0)
    ensures var more := if ready then [t0 + p] else [];
            Shifted((xs + more)[n..], slots + (if ready then [p] else []), t0)
  {
  }

  predicate PassIs(procs: seq<Proc>, ticks: seq<nat>, tick: nat, before: seq<Proc>, xs: seq<nat>, t0: nat, p: nat) {
    p <= |before| == |procs| == NPROC && tick == t0 + p
    && (forall k :: 0 < k < NPROC ==> procs[k] == before[k]) && (p == 0 ==> procs == before)
    && xs <= ticks && Shifted(ticks[|xs|..], Slots(before, p), t0)
  }

  // One more visit of the pass.
  lemma PassOn(procs: seq<Proc>, ticks: seq<nat>, before: seq<Proc>, xs: seq<nat>, t0: nat, p: nat, procs': seq<Proc>)
    requires p < NPROC && PassIs(procs, ticks, t0 + p, before, xs, t0, p)
    requires |procs'| == NPROC && forall k :: 0 < k < NPROC ==> procs'[k] == procs[k]
    ensures var more := if procs[p].state == Runnable then [t0 + p] else [];
            PassIs(procs', ticks + more, t0 + p + 1, before, xs, t0, p + 1)
  {
    OneMore(ticks, |xs|, Slots(before, p), t0, p, before[p].state == Runnable);
  }

  const U32 := 0x1_0000_0000
  const U64 := 0x1_0000_0000_0000_0000
  const ELF_MAGIC := 0x464C457F

  // -1 as an entry point, of 64 bits.
  const MINUS_ONE := 0xFFFF_FFFF_FFFF_FFFF

  method GetElfEntryPoint(magic: nat, entry: nat) returns (r: nat)
    requires magic < U32 && entry < U64
    ensures r < U64 && (r == MINUS_ONE <==> !IsProgram(magic, entry))
    ensures IsProgram(magic, entry) ==> r == entry + 0x1000 || r == entry + 0x1000 - U64
  {
    if magic != ELF_MAGIC { return MINUS_ONE; }
    return (entry + 0x1000) % U64;
  }

  // A file with the bytes 7F 45 4C 46 in front; one whose entry point wraps to -1 is taken for none.
  predicate IsProgram(magic: nat, entry: nat) { magic == 0x464C457F && entry != U64 - 0x1001 }

  class Kernel {
    const procs: array<Proc>
    var cur: nat
    var schedLocked: bool
    var nextPid: nat
    // The run so far: every change below is one of its steps.
    ghost var s: State

    ghost predicate Coherent()
      reads this, procs
    {
      procs.Length == NPROC && s.procs == procs[..] && s.cur == cur && s.schedLocked == schedLocked
      && s.nextPid == nextPid && Inv(s)
    }

    // And no exec has kept a process's lock.
    ghost predicate Valid()
      reads this, procs
    {
      Coherent() && Clean(s)
    }

    constructor ()
      ensures Valid() && fresh(procs) && s == Initial()
      ensures procs.Length == 64 && cur == 0 && !schedLocked && nextPid == 2 && procs[0] == Proc(Used, 1, false)
      ensures forall k :: 0 < k < procs.Length ==> procs[k] == Proc(Unused, 0, false)
    {
      procs := new Proc[NPROC](i => if i == 0 then Proc(Used, 1, false) else Proc(Unused, 0, false));
      cur, schedLocked, nextPid := 0, false, 2;
      s := Initial();
      new;
      InitialInv();
      assert s.procs == procs[..];
    }

    // allocpid, under pid_lock.
    method AllocPid() returns (pid: nat)
      modifies `nextPid
      ensures pid == old(nextPid) && nextPid == pid + 1
    {
      pid := nextPid;
      nextPid := nextPid + 1;
    }

    // create_proc: the lowest unused slot, with a pid no other process has, or nothing.
    method CreateProc() returns (r: int)
      requires Valid() && s.place == Creating
      modifies this, procs
      ensures Valid() && s.place == Creating
      ensures schedLocked == old(schedLocked) && cur == old(cur)
      ensures r == -1 ==> s == old(s) && procs[..] == old(procs[..]) && nextPid == old(nextPid)
      ensures r == -1 ==> forall k :: 0 <= k < NPROC ==> procs[k].state != Unused
      ensures r != -1 ==> 0 <= r < NPROC && Enabled(old(s), Create(r)) && s == Next(old(s), Create(r))
      ensures r != -1 ==> old(procs[r]).state == Unused && forall k :: 0 <= k < r ==> old(procs[k]).state != Unused
      ensures r != -1 ==> procs[..] == old(procs[..])[r := Proc(Used, old(nextPid), false)]
      ensures r != -1 ==> nextPid == old(nextPid) + 1
    {
      var k := 0;
      while k < NPROC
        invariant 0 <= k <= NPROC && procs[..] == old(procs[..]) && Valid() && s == old(s)
        invariant forall j :: 0 <= j < k ==> procs[j].state != Unused
      {
        if procs[k].state == Unused {
          var pid := AllocPid();
          procs[k] := procs[k].(state := Used, pid := pid);
          StepKeeps(s, Create(k));
          CleanKeeps(s, Create(k));
          s := Next(s, Create(k));
          return k;
        }
        k := k + 1;
      }
      return -1;
    }

    // exec, for the magic number and entry point that the file's bytes give: 1 for no program, and then
    // the process keeps its lock.
    method Exec(k: nat, magic: nat, entry: nat) returns (r: int)
      requires Coherent() && s.place == Creating && 0 < k < NPROC
      requires procs[k].state != Unused && !procs[k].locked && magic < U32 && entry < U64
      modifies this, procs
      ensures Coherent() && s.place == Creating && (old(Clean(s)) && r == 0 ==> Valid())
      ensures r == (if IsProgram(magic, entry) then 0 else 1) && s == Next(old(s), Step.Exec(k, r == 0))
      ensures r == 0 ==> procs[..] == old(procs[..])[k := old(procs[k]).(state := Runnable)]
      ensures r != 0 ==> procs[..] == old(procs[..])[k := old(procs[k]).(locked := true)]
      ensures schedLocked == old(schedLocked) && cur == old(cur) && nextPid == old(nextPid)
    {
      procs[k] := procs[k].(locked := true);
      var entryPoint := GetElfEntryPoint(magic, entry);
      ghost var step := Step.Exec(k, entryPoint != MINUS_ONE);
      StepKeeps(s, step);
      if s.place == Creating && Clean(s) && entryPoint != MINUS_ONE { CleanKeeps(s, step); }
      s := Next(s, step);
      if entryPoint == MINUS_ONE { return 1; }
      procs[k] := procs[k].(state := Runnable);
      procs[k] := procs[k].(locked := false);
      return 0;
    }

    // proc_exec.
    method ProcExec(from: nat, next: nat)
      requires procs.Length == NPROC && from < NPROC
      modifies `cur, procs
      ensures cur == next && procs[..] == old(procs[..])[from := old(procs[from]).(state := Runnable)]
    {
      cur := next;
      procs[from] := procs[from].(state := Runnable);
    }

    ghost method Do(step: Step)
      requires Inv(s) && Clean(s) && Enabled(s, step) && (step.Exec? ==> step.program)
      modifies `s
      ensures s == Next(old(s), step) && Inv(s) && Clean(s)
    {
      StepKeeps(s, step);
      CleanKeeps(s, step);
      s := Next(s, step);
    }

    // lock_acquire of sched_lock and of the process's lock, both free.
    method Acquire(i: nat)
      requires Valid() && s.place == WantSched && i == Slot(s.tick)
      modifies this, procs
      ensures Valid() && s == old(s).(place := Test, schedLocked := true, procs := procs[..])
      ensures procs[..] == old(procs[..])[i := old(procs[i]).(locked := true)]
    {
      schedLocked := true;
      Do(Go);
      procs[i] := procs[i].(locked := true);
      Do(Go);
    }

    method Release(i: nat)
      requires Valid() && s.place == FreeProc && i == Slot(s.tick)
      modifies this, procs
      ensures Valid()
      ensures s == old(s).(place := WantSched, schedLocked := false, procs := procs[..], tick := old(s.tick) + 1)
      ensures procs[..] == old(procs[..])[i := old(procs[i]).(locked := false)]
    {
      procs[i] := procs[i].(locked := false);
      Do(Go);
      schedLocked := false;
      Do(Go);
    }

    // proc_exec of the process found, and its time slice: a timer interrupt or the exit call comes back.
    method Dispatch(i: nat)
      requires Valid() && s.place == Switch && i == Slot(s.tick)
      modifies this, procs
      ensures Valid() && s.place == FreeProc && s.tick == old(s.tick) && s.switches == old(s.switches) + [s.tick]
      ensures procs[i] == old(procs[i]).(state := Runnable)
      ensures forall k :: 0 < k < NPROC && k != i ==> procs[k] == old(procs[k])
    {
      ProcExec(cur, i);
      Do(Go);
      if i != 0 {
        ProcExec(cur, 0);
        Do(Yield);
      }
    }

    // One turn of the loop in scheduler().
    method Visit(i: nat)
      requires Valid() && s.place == WantSched && i == Slot(s.tick)
      modifies this, procs
      ensures Valid() && s.place == WantSched && s.tick == old(s.tick) + 1
      ensures s.switches == old(s.switches) + if old(procs[i]).state == Runnable then [old(s.tick)] else []
      ensures forall k :: 0 < k < NPROC ==> procs[k] == old(procs[k])
    {
      Acquire(i);
      if procs[i].state == Runnable {
        procs[i] := procs[i].(state := Running);
        Do(Go);
        Dispatch(i);
      } else {
        Do(Go);
      }
      Release(i);
    }

    // What a pass has done after p of its visits: before are the processes, xs the switches, t0 the tick
    // at its start.
    ghost predicate PassTo(before: seq<Proc>, xs: seq<nat>, t0: nat, p: nat)
      reads this, procs
    {
      Valid() && s.place == WantSched && PassIs(procs[..], s.switches, s.tick, before, xs, t0, p)
    }

    method Turn(p: nat, ghost before: seq<Proc>, ghost xs: seq<nat>, ghost t0: nat)
      requires p < NPROC && Slot(t0) == 0 && PassTo(before, xs, t0, p)
      modifies this, procs
      ensures PassTo(before, xs, t0, p + 1)
    {
      ghost var now, ticks := procs[..], s.switches;
      Visit(p);
      PassOn(now, ticks, before, xs, t0, p, procs[..]);
    }

    // scheduler(): a pass switches once to every process that is ready when it begins, in the order of
    // the table, and to no other.
    method Scheduler()
      requires Valid() && s.place == WantSched && Slot(s.tick) == 0
      modifies this, procs
      ensures Valid() && s.place == WantSched && s.tick == old(s.tick) + NPROC
      ensures old(s.switches) <= s.switches
      ensures Shifted(s.switches[|old(s.switches)|..], Slots(old(procs[..]), NPROC), old(s.tick))
    {
      ghost var before, xs, t0 := procs[..], s.switches, s.tick;
      var p := 0;
      while p < NPROC
        invariant 0 <= p <= NPROC && PassTo(before, xs, t0, p)
      {
        Turn(p, before, xs, t0);
        p := p + 1;
      }
    }
  }
}
