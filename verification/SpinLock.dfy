// lock.c and mem.c of day3-3: any number of harts call malloc and free, which take a lock built on an
// atomic swap. A step is one access to the lock or to one table entry; steps of harts interleave freely.

module SpinLocks {
  import opened PageAllocator
  import opened MallocCalls
  import opened Options

  // Where a hart is: outside, spinning on the lock, or in the critical section.
  datatype Pc =
    | Out
    | Spin(op: Op)
    | Scan(n: nat, start: nat, j: nat)
    | Setting(n: nat, start: nat, k: nat)
    | Clearing(s: nat, n: nat, i: nat)
    | Wiping(s: nat, n: nat, i: nat, more: bool)
    | Failing
    | Leaving(op: Op, result: Option<nat>)

  // The lock word, the table, the harts, the completed calls in the order in which they gave up the
  // lock, and the blocks returned and not yet passed to free. No step looks at the holder.
  datatype State = State(locked: bool, holder: Option<nat>, flags: seq<Flag>, harts: seq<Pc>, log: seq<Entry>,
                         held: set<(nat, nat)>, abandoned: bool, fault: bool)

  function Initial(pages: nat, harts: nat): State {
    State(false, None, seq(pages, _ => 0), seq(harts, _ => Out), [], {}, false, false)
  }

  datatype Step = Call(h: nat, op: Op) | Swap(h: nat) | Move(h: nat)

  predicate Inside(pc: Pc) { !pc.Out? && !pc.Spin? }

  ghost predicate Enabled(s: State, step: Step) {
    !s.fault && step.h < |s.harts| &&
    match step
    case Call(h, op) =>
      s.harts[h].Out?
      && (match op case Malloc(n) => n > 0 case Free(b, n) => (b, n) in s.held case FreeOther => s.flags != [])
    case Swap(h) => s.harts[h].Spin?
    case Move(h) => Inside(s.harts[h])
  }

  function Enter(op: Op): Pc {
    match op
    case Malloc(n) => Scan(n, 0, 0)
    case Free(b, n) => Clearing(b, n, b)
    case FreeOther => Failing
  }

  ghost function Next(s: State, step: Step): State
    requires Enabled(s, step)
  {
    var h := step.h;
    match step
    case Call(_, op) =>
      s.(harts := s.harts[h := Spin(op)], held := match op case Free(b, n) => s.held - {(b, n)} case _ => s.held)
    case Swap(_) =>
      if s.locked then s else s.(locked := true, holder := Some(h), harts := s.harts[h := Enter(s.harts[h].op)])
    case Move(_) => Moved(s, h, s.harts[h])
  }

  // One access to the table g by a hart at pc: the new table and where the hart is then, or nothing if
  // it is an access past the end of the table.
  function Access(g: seq<Flag>, pc: Pc): Option<(seq<Flag>, Pc)>
    requires pc.Scan? || pc.Setting? || pc.Clearing? || pc.Wiping?
  {
    match pc
    case Scan(n, start, j) =>
      var i := start + j;
      if j == n then Some((g, Setting(n, start, 0)))
      else if j == 0 && i >= |g| then Some((g, Leaving(Malloc(n), None)))
      else if i >= |g| then None
      else if g[i] == 0 then Some((g, Scan(n, start, j + 1)))
      else Some((g, Scan(n, i + 1, 0)))
    case Setting(n, start, k) =>
      if k < n then
        if start + k >= |g| then None else Some((g[start + k := 1], Setting(n, start, k + 1)))
      else if !(0 < start + n <= |g|) then None
      else Some((g[start + n - 1 := 2], Leaving(Malloc(n), Some(start))))
    case Clearing(b, n, i) => if i >= |g| then None else Some((g, Wiping(b, n, i, g[i] == 1)))
    case Wiping(b, n, i, more) =>
      if i >= |g| then None
      else Some((g[i := 0], if more then Clearing(b, n, i + 1) else Leaving(Free(b, n), None)))
  }

  // A step of the hart in the critical section. On its error path free forgets to give up the lock.
  function Moved(s: State, h: nat, pc: Pc): State
    requires h < |s.harts| && Inside(pc)
  {
    if pc.Failing? then s.(harts := s.harts[h := Out], holder := None, abandoned := true)
    else if pc.Leaving? then
      s.(locked := false, holder := None, harts := s.harts[h := Out], log := s.log + [Entry(h, pc.op, pc.result)],
         held := if pc.op.Malloc? && pc.result.Some? then s.held + {(pc.result.value, pc.op.n)} else s.held)
    else
      match Access(s.flags, pc)
      case None => s.(fault := true)
      case Some((g, to)) => s.(flags := g, harts := s.harts[h := to])
  }

  // ---------- The invariant ----------

  // The block a hart has passed to free, until it is gone.
  function Freeing(pc: Pc): Option<(nat, nat)> {
    match pc
    case Spin(Free(s, n)) => Some((s, n))
    case Clearing(s, n, _) => Some((s, n))
    case Wiping(s, n, _, _) => Some((s, n))
    case Leaving(Free(s, n), _) => Some((s, n))
    case _ => None
  }

  // How the table g of a hart at pc has come from the table f that it met.
  ghost predicate Progress(f: seq<Flag>, g: seq<Flag>, pc: Pc) {
    match pc
    case Scan(n, start, j) =>
      g == f && j <= n && n > 0 && start + j <= |f| && (start > 0 ==> f[start - 1] != 0)
      && (forall k :: start <= k < start + j ==> f[k] == 0)
      && (forall t: nat :: t < start ==> !Fit(f, t, n))
    case Setting(n, start, k) =>
      0 < n && k <= n && Fit(f, start, n) && g == PartSet(f, start, k) && forall t: nat :: t < start ==> !Fit(f, t, n)
    case Clearing(s, n, i) => IsBlock(f, s, n) && s <= i < s + n && g == Clear(f, s, i - s)
    case Wiping(s, n, i, more) =>
      IsBlock(f, s, n) && s <= i < s + n && g == Clear(f, s, i - s) && (more <==> i + 1 < s + n)
    case Failing => g == f
    case Leaving(op, result) =>
      var e := Entry(0, op, result);
      Correct(f, e) && Ends(f, e) && g == Effect(f, e)
    case _ => true
  }

  ghost predicate Exclusive(s: State) {
    && (forall h :: 0 <= h < |s.harts| ==> (Inside(s.harts[h]) <==> s.holder == Some(h)))
    && (s.holder.Some? ==> s.holder.value < |s.harts| && !s.abandoned)
    && (s.locked <==> s.holder.Some? || s.abandoned)
  }

  ghost predicate Tables(s: State, f: seq<Flag>) {
    match s.holder
    case None => s.flags == f
    case Some(h) => h < |s.harts| && Progress(f, s.flags, s.harts[h])
  }

  ghost predicate Blocks(s: State, f: seq<Flag>) {
    && WellFormed(f)
    && (forall s', n :: (s', n) in s.held ==> IsBlock(f, s', n))
    && (forall h :: 0 <= h < |s.harts| && Freeing(s.harts[h]).Some? ==>
          var b := Freeing(s.harts[h]).value;
          b !in s.held && IsBlock(f, b.0, b.1))
    && (forall g, h :: 0 <= g < h < |s.harts| && Freeing(s.harts[g]).Some? ==>
          Freeing(s.harts[g]) != Freeing(s.harts[h]))
    && (forall h :: 0 <= h < |s.harts| && s.harts[h].Spin? && s.harts[h].op.Malloc? ==> s.harts[h].op.n > 0)
  }

  // A scan left the table f.
  ghost predicate Overrun(s: State, f: seq<Flag>) {
    f != [] && f[|f| - 1] == 0
    && exists h :: 0 <= h < |s.harts| && s.harts[h].Scan? && s.harts[h].n > 1 && NothingFits(f, s.harts[h].n)
  }

  ghost predicate Inv(s: State, f0: seq<Flag>) {
    AllCorrect(f0, s.log) && AllEnd(f0, s.log) && Blocks(s, Replay(f0, s.log)) && Exclusive(s)
    && Tables(s, Replay(f0, s.log)) && (s.fault ==> Overrun(s, Replay(f0, s.log)))
  }

  lemma CallKeeps(s: State, step: Step, f0: seq<Flag>)
    requires Inv(s, f0) && Enabled(s, step) && step.Call?
    ensures Inv(Next(s, step), f0)
  {
  }

  lemma SwapKeeps(s: State, step: Step, f0: seq<Flag>)
    requires Inv(s, f0) && Enabled(s, step) && step.Swap?
    ensures Inv(Next(s, step), f0)
  {
  }

  // An access keeps the hart on its way; one past the end happens only to a scan for which nothing
  // fits while the last page is free.
  lemma AccessKeeps(f: seq<Flag>, g: seq<Flag>, pc: Pc)
    requires WellFormed(f) && Progress(f, g, pc) && (pc.Scan? || pc.Setting? || pc.Clearing? || pc.Wiping?)
    ensures match Access(g, pc)
            case None => pc.Scan? && pc.n > 1 && f != [] && f[|f| - 1] == 0 && NothingFits(f, pc.n)
            case Some((g', to)) => Progress(f, g', to) && Inside(to) && Freeing(to) == Freeing(pc)
  {
    match pc
    case Scan(n, start, j) => ScanKeeps(f, n, start, j);
    case Setting(n, start, k) => SetKeeps(f, g, n, start, k);
    case Clearing(b, n, i) => ClearKeeps(f, g, b, n, i);
    case Wiping(b, n, i, more) => WipeKeeps(f, g, b, n, i, more);
  }

  lemma ScanKeeps(f: seq<Flag>, n: nat, start: nat, j: nat)
    requires Progress(f, f, Scan(n, start, j))
    ensures match Access(f, Scan(n, start, j))
            case None => n > 1 && f != [] && f[|f| - 1] == 0 && NothingFits(f, n)
            case Some((g, to)) => Progress(f, g, to) && Inside(to) && Freeing(to) == None
  {
  }

  lemma SetKeeps(f: seq<Flag>, g: seq<Flag>, n: nat, start: nat, k: nat)
    requires Progress(f, g, Setting(n, start, k))
    ensures var r := Access(g, Setting(n, start, k));
            r.Some? && Progress(f, r.value.0, r.value.1) && Inside(r.value.1) && Freeing(r.value.1) == None
  {
  }

  lemma ClearKeeps(f: seq<Flag>, g: seq<Flag>, b: nat, n: nat, i: nat)
    requires WellFormed(f) && Progress(f, g, Clearing(b, n, i))
    ensures var r := Access(g, Clearing(b, n, i));
            r.Some? && Progress(f, r.value.0, r.value.1) && Inside(r.value.1) && Freeing(r.value.1) == Some((b, n))
  {
  }

  lemma WipeKeeps(f: seq<Flag>, g: seq<Flag>, b: nat, n: nat, i: nat, more: bool)
    requires WellFormed(f) && Progress(f, g, Wiping(b, n, i, more))
    ensures var r := Access(g, Wiping(b, n, i, more));
            r.Some? && Progress(f, r.value.0, r.value.1) && Inside(r.value.1) && Freeing(r.value.1) == Some((b, n))
  {
    assert g[i := 0] == Clear(f, b, i + 1 - b);
  }

  lemma MoveKeeps(s: State, h: nat, f0: seq<Flag>)
    requires Inv(s, f0) && Enabled(s, Move(h)) && !s.harts[h].Leaving? && !s.harts[h].Failing?
    ensures Inv(Next(s, Move(h)), f0)
  {
    AccessKeeps(Replay(f0, s.log), s.flags, s.harts[h]);
  }

  lemma MallocLeaves(s: State, h: nat, f: seq<Flag>)
    requires Blocks(s, f) && Exclusive(s) && Tables(s, f) && Enabled(s, Move(h))
    requires s.harts[h].Leaving? && s.harts[h].op.Malloc?
    ensures Blocks(Next(s, Move(h)), Effect(f, Entry(h, s.harts[h].op, s.harts[h].result)))
  {
    var op, result := s.harts[h].op, s.harts[h].result;
    if result.Some? { MarkAdds(f, result.value, op.n); }
  }

  lemma FreeLeaves(s: State, h: nat, f: seq<Flag>)
    requires Blocks(s, f) && Exclusive(s) && Tables(s, f) && Enabled(s, Move(h))
    requires s.harts[h].Leaving? && s.harts[h].op.Free?
    ensures Blocks(Next(s, Move(h)), Effect(f, Entry(h, s.harts[h].op, s.harts[h].result)))
  {
    var op := s.harts[h].op;
    assert Freeing(s.harts[h]) == Some((op.s, op.n));
    ClearRemoves(f, op.s, op.n);
  }

  lemma LeaveKeeps(s: State, h: nat, f0: seq<Flag>)
    requires Inv(s, f0) && Enabled(s, Move(h)) && s.harts[h].Leaving?
    ensures Inv(Next(s, Move(h)), f0)
  {
    var f, e := Replay(f0, s.log), Entry(h, s.harts[h].op, s.harts[h].result);
    assert Correct(f, e);
    ReplayExtend(f0, s.log, e);
    EndsExtend(f0, s.log, e);
    if e.op.Malloc? { MallocLeaves(s, h, f); } else { FreeLeaves(s, h, f); }
    assert s.flags == Effect(f, e);
  }

  lemma FailKeeps(s: State, h: nat, f0: seq<Flag>)
    requires Inv(s, f0) && Enabled(s, Move(h)) && s.harts[h].Failing?
    ensures Inv(Next(s, Move(h)), f0)
  {
  }

  // ---------- Every interleaving ----------

  ghost predicate Legal(s: State, steps: seq<Step>)
    decreases steps
  {
    steps == [] || (Enabled(s, steps[0]) && Legal(Next(s, steps[0]), steps[1..]))
  }

  ghost function After(s: State, steps: seq<Step>): State
    requires Legal(s, steps)
    decreases steps
  {
    if steps == [] then s else After(Next(s, steps[0]), steps[1..])
  }

  lemma StepKeeps(s: State, step: Step, f0: seq<Flag>)
    requires Inv(s, f0) && Enabled(s, step)
    ensures Inv(Next(s, step), f0)
  {
    match step
    case Call(_, _) => CallKeeps(s, step, f0);
    case Swap(_) => SwapKeeps(s, step, f0);
    case Move(h) =>
      if s.harts[h].Leaving? {
        LeaveKeeps(s, h, f0);
      } else if s.harts[h].Failing? {
        FailKeeps(s, h, f0);
      } else {
        MoveKeeps(s, h, f0);
      }
  }

  lemma {:induction false} RunKeeps(s: State, steps: seq<Step>, f0: seq<Flag>)
    requires Inv(s, f0) && Legal(s, steps)
    ensures Inv(After(s, steps), f0)
    decreases steps
  {
    if steps != [] {
      StepKeeps(s, steps[0], f0);
      RunKeeps(Next(s, steps[0]), steps[1..], f0);
    }
  }

  lemma InitialInv(pages: nat, harts: nat)
    ensures Inv(Initial(pages, harts), seq(pages, _ => 0))
  {
  }

  // At most one hart is in the critical section, and then the lock word is 1.
  lemma {:induction false} MutualExclusion(pages: nat, harts: nat, steps: seq<Step>, g: nat, h: nat)
    requires Legal(Initial(pages, harts), steps)
    requires var s := After(Initial(pages, harts), steps);
             g < |s.harts| && h < |s.harts| && Inside(s.harts[g]) && Inside(s.harts[h])
    ensures g == h && After(Initial(pages, harts), steps).locked
  {
    InitialInv(pages, harts);
    RunKeeps(Initial(pages, harts), steps, seq(pages, _ => 0));
  }

  // The calls completed so far behave as if made one after the other in the order in which they gave
  // up the lock: each malloc got the lowest run that fits, each free gave back its block, and the
  // table is what they leave. When nothing fits, a scan ends if the last page is in use, and leaves the table
  // only if it is free.
  lemma {:induction false} Serial(pages: nat, harts: nat, steps: seq<Step>)
    requires Legal(Initial(pages, harts), steps)
    ensures var s, f0 := After(Initial(pages, harts), steps), seq(pages, _ => 0);
            && AllCorrect(f0, s.log) && AllEnd(f0, s.log)
            && ((forall h :: 0 <= h < |s.harts| ==> !Inside(s.harts[h])) ==> s.flags == Replay(f0, s.log))
            && (s.fault ==> Overrun(s, Replay(f0, s.log)))
  {
    InitialInv(pages, harts);
    RunKeeps(Initial(pages, harts), steps, seq(pages, _ => 0));
  }

  // Two blocks that have been returned and not yet freed never share a page.
  lemma {:induction false} NoOverlap(pages: nat, harts: nat, steps: seq<Step>, a: (nat, nat), b: (nat, nat))
    requires Legal(Initial(pages, harts), steps)
    requires var s := After(Initial(pages, harts), steps);
             a in s.held && b in s.held && a != b
    ensures a.0 + a.1 <= b.0 || b.0 + b.1 <= a.0
    ensures a.1 > 0 && a.0 + a.1 <= pages
  {
    InitialInv(pages, harts);
    var f0: seq<Flag> := seq(pages, _ => 0);
    RunKeeps(Initial(pages, harts), steps, f0);
    var f := Replay(f0, After(Initial(pages, harts), steps).log);
    if a.0 < b.0 + b.1 && b.0 < a.0 + a.1 {
      var k := if a.0 < b.0 then b.0 else a.0;
      BlocksApart(f, k, a.0, a.1, b.0, b.1);
    }
  }

  // Page p is one of a block that is held, or has been passed to a call of free that is not over.
  ghost predicate Claimed(s: State, p: int) {
    (exists b :: b in s.held && Within(p, b.0, b.1)) || (exists h :: Gives(s, h, p))
  }

  predicate Gives(s: State, h: int, p: int) {
    0 <= h < |s.harts| && Freeing(s.harts[h]).Some?
    && Within(p, Freeing(s.harts[h]).value.0, Freeing(s.harts[h]).value.1)
  }

  ghost predicate Owned(s: State, f: seq<Flag>) { forall p :: 0 <= p < |f| && f[p] != 0 ==> Claimed(s, p) }

  lemma StepOwned(s: State, step: Step, f0: seq<Flag>)
    requires Inv(s, f0) && Owned(s, Replay(f0, s.log)) && Enabled(s, step)
    ensures Owned(Next(s, step), Replay(f0, Next(s, step).log))
  {
    var f, t := Replay(f0, s.log), Next(s, step);
    if step.Move? && s.harts[step.h].Leaving? {
      LeaveOwned(s, step.h, f0);
    } else {
      GivesOn(s, step, f0);
      StaysOwned(s, t, step, f);
    }
  }

  lemma StaysOwned(s: State, t: State, step: Step, f: seq<Flag>)
    requires Owned(s, f) && |t.harts| == |s.harts| && step.h < |s.harts|
    requires forall h :: 0 <= h < |s.harts| && Freeing(s.harts[h]).Some? ==> Freeing(t.harts[h]) == Freeing(s.harts[h])
    requires forall b :: b in s.held && b !in t.held ==> Freeing(t.harts[step.h]) == Some(b)
    ensures Owned(t, f)
  {
    forall p | 0 <= p < |f| && f[p] != 0 ensures Claimed(t, p) {
      if h :| Gives(s, h, p) {
        assert Gives(t, h, p);
      } else {
        var b :| b in s.held && Within(p, b.0, b.1);
        if b !in t.held { assert Gives(t, step.h, p); }
      }
    }
  }

  // A block being given back stays so until its call is over.
  lemma GivesOn(s: State, step: Step, f0: seq<Flag>)
    requires Inv(s, f0) && Enabled(s, step) && !(step.Move? && s.harts[step.h].Leaving?)
    ensures var t := Next(s, step);
            |t.harts| == |s.harts| && t.log == s.log
            && (forall h :: 0 <= h < |s.harts| && Freeing(s.harts[h]).Some? ==>
                  Freeing(t.harts[h]) == Freeing(s.harts[h]))
            && (forall b :: b in s.held && b !in t.held ==> Freeing(t.harts[step.h]) == Some(b))
  {
    if step.Move? && (s.harts[step.h].Scan? || s.harts[step.h].Setting? || s.harts[step.h].Clearing?
                      || s.harts[step.h].Wiping?) {
      AccessKeeps(Replay(f0, s.log), s.flags, s.harts[step.h]);
    }
  }

  lemma LeaveOwned(s: State, h: nat, f0: seq<Flag>)
    requires Inv(s, f0) && Owned(s, Replay(f0, s.log)) && Enabled(s, Move(h)) && s.harts[h].Leaving?
    ensures Owned(Next(s, Move(h)), Replay(f0, Next(s, Move(h)).log))
  {
    var f, t, e := Replay(f0, s.log), Next(s, Move(h)), Entry(h, s.harts[h].op, s.harts[h].result);
    assert Correct(f, e);
    ReplayExtend(f0, s.log, e);
    forall p | 0 <= p < |f| && Effect(f, e)[p] != 0 ensures Claimed(t, p) {
      if f[p] != 0 {
        assert Claimed(s, p);
        if g :| Gives(s, g, p) {
          if g != h { assert Gives(t, g, p); }
        }
      } else {
        assert (e.result.value, e.op.n) in t.held;
      }
    }
  }

  lemma {:induction false} RunOwned(s: State, steps: seq<Step>, f0: seq<Flag>)
    requires Inv(s, f0) && Owned(s, Replay(f0, s.log)) && Legal(s, steps)
    ensures Owned(After(s, steps), Replay(f0, After(s, steps).log))
    decreases steps
  {
    if steps != [] {
      StepKeeps(s, steps[0], f0);
      StepOwned(s, steps[0], f0);
      RunOwned(Next(s, steps[0]), steps[1..], f0);
    }
  }

  lemma AllClaimed(s: State, f: seq<Flag>, p: nat)
    requires Blocks(s, f) && Owned(s, f) && p < |f|
    ensures f[p] != 0 <==> Claimed(s, p)
  {
    if b :| b in s.held && Within(p, b.0, b.1) {
      assert IsBlock(f, b.0, b.1);
    } else if h :| Gives(s, h, p) {
      assert IsBlock(f, Freeing(s.harts[h]).value.0, Freeing(s.harts[h]).value.1);
    }
  }

  lemma NobodyInside(s: State, f: seq<Flag>)
    requires Exclusive(s) && Tables(s, f) && forall h :: 0 <= h < |s.harts| ==> !Inside(s.harts[h])
    ensures s.flags == f
  {
  }

  // No page is lost: while no hart is inside, the pages in use are exactly those of blocks that are held or
  // wait for the lock to be freed.
  lemma {:induction false} NothingLost(pages: nat, harts: nat, steps: seq<Step>, p: nat)
    requires Legal(Initial(pages, harts), steps)
    requires var s := After(Initial(pages, harts), steps);
             p < |s.flags| && forall h :: 0 <= h < |s.harts| ==> !Inside(s.harts[h])
    ensures var s := After(Initial(pages, harts), steps); s.flags[p] != 0 <==> Claimed(s, p)
  {
    var s, f0: seq<Flag> := Initial(pages, harts), seq(pages, _ => 0);
    InitialInv(pages, harts);
    RunKeeps(s, steps, f0);
    RunOwned(s, steps, f0);
    var t := After(s, steps);
    NobodyInside(t, Replay(f0, t.log));
    AllClaimed(t, Replay(f0, t.log), p);
  }

  // ---------- The lock that is kept ----------

  // Some step of the run is the error return of free.
  predicate Fails(s: State, step: Step) { step.Move? && step.h < |s.harts| && s.harts[step.h].Failing? }

  ghost predicate SomeFails(s: State, steps: seq<Step>)
    requires Legal(s, steps)
    decreases steps
  {
    steps != [] && (Fails(s, steps[0]) || SomeFails(Next(s, steps[0]), steps[1..]))
  }

  // The lock is kept for good exactly when a call of free has passed its error return.
  lemma {:induction false} AbandonedExactly(s: State, steps: seq<Step>, f0: seq<Flag>)
    requires Inv(s, f0) && Legal(s, steps)
    ensures After(s, steps).abandoned <==> s.abandoned || SomeFails(s, steps)
    decreases steps
  {
    if steps != [] {
      StepKeeps(s, steps[0], f0);
      AbandonedExactly(Next(s, steps[0]), steps[1..], f0);
    }
  }

  // Such a call is all it takes: any hart that gets the lock with one keeps it.
  lemma Abandons(s: State, h: nat)
    requires h < |s.harts| && !s.fault && !s.locked && s.harts[h].Out? && s.flags != []
    ensures var steps := [Call(h, FreeOther), Swap(h), Move(h)];
            Legal(s, steps) && After(s, steps) == s.(locked := true, holder := None, abandoned := true)
  {
    var a, b, c := Call(h, FreeOther), Swap(h), Move(h);
    var t, u := Next(s, a), Next(Next(s, a), b);
    assert t.harts[h] == Spin(FreeOther) && u.harts[h] == Failing;
    assert Next(u, c).harts == s.harts;
    assert [a, b, c][1..] == [b, c] && [b, c][1..] == [c] && [c][1..] == [];
    assert Legal(u, [c]) && Legal(t, [b, c]);
    assert After(u, [c]) == Next(u, c) && After(t, [b, c]) == After(u, [c]);
  }

  predicate PageCalls(steps: seq<Step>) {
    forall i :: 0 <= i < |steps| && steps[i].Call? ==> steps[i].op != FreeOther
  }

  predicate NoBadPointer(s: State) {
    !s.abandoned
    && forall h :: 0 <= h < |s.harts| ==> !s.harts[h].Failing? && (s.harts[h].Spin? ==> s.harts[h].op != FreeOther)
  }

  lemma GoodStep(s: State, step: Step)
    requires NoBadPointer(s) && Enabled(s, step) && (step.Call? ==> step.op != FreeOther)
    ensures NoBadPointer(Next(s, step))
  {
  }

  predicate LockWord(s: State) {
    (s.locked <==> s.holder.Some?) && (s.locked <==> exists h :: 0 <= h < |s.harts| && Inside(s.harts[h]))
  }

  lemma LockIsWord(s: State)
    requires Exclusive(s) && !s.abandoned
    ensures LockWord(s)
  {
    assert s.holder.Some? ==> Inside(s.harts[s.holder.value]);
  }

  // As long as free is called on pages only, the lock word is 1 exactly while a hart is inside.
  lemma {:induction false} NeverAbandoned(s: State, steps: seq<Step>, f0: seq<Flag>)
    requires Inv(s, f0) && NoBadPointer(s) && Legal(s, steps) && PageCalls(steps)
    ensures NoBadPointer(After(s, steps)) && LockWord(After(s, steps))
    decreases steps
  {
    if steps == [] {
      LockIsWord(s);
    } else {
      StepKeeps(s, steps[0], f0);
      GoodStep(s, steps[0]);
      assert forall i :: 0 <= i < |steps[1..]| ==> steps[1..][i] == steps[i + 1];
      NeverAbandoned(Next(s, steps[0]), steps[1..], f0);
    }
  }

  // How many accesses the hart inside has left at most.
  function Left(s: State): nat {
    match s.holder
    case None => 0
    case Some(h) =>
      if h >= |s.harts| then 0 else
      match s.harts[h]
      case Scan(n, start, j) => (if start + j <= |s.flags| then |s.flags| - (start + j) else 0) + n + 4
      case Setting(n, _, k) => (if k <= n then n - k else 0) + 2
      case Clearing(b, n, i) => (if i <= b + n then 2 * (b + n - i) else 0) + 1
      case Wiping(b, n, i, _) => if i <= b + n then 2 * (b + n - i) else 0
      case _ => 1
  }

  // The hart inside always has a step, and each brings it nearer to giving up the lock, unless it is
  // a scan that leaves the table.
  lemma HolderMoves(s: State, f0: seq<Flag>)
    requires Inv(s, f0) && s.holder.Some? && !s.fault
    ensures var m := Move(s.holder.value);
            Enabled(s, m)
            && (Next(s, m).fault
                || (Left(Next(s, m)) < Left(s) && (Next(s, m).holder == s.holder || Left(Next(s, m)) == 0)))
  {
    var h := s.holder.value;
    if s.harts[h].Scan? || s.harts[h].Setting? || s.harts[h].Clearing? || s.harts[h].Wiping? {
      AccessKeeps(Replay(f0, s.log), s.flags, s.harts[h]);
    }
  }

  // And no step of another hart puts it off.
  lemma OthersWait(s: State, step: Step, f0: seq<Flag>)
    requires Inv(s, f0) && s.holder.Some? && Enabled(s, step) && step.h != s.holder.value
    ensures Next(s, step).holder == s.holder && Left(Next(s, step)) == Left(s) && !Next(s, step).fault
  {
  }

  lemma HolderKeeps(s: State, f0: seq<Flag>)
    requires Inv(s, f0) && NoBadPointer(s) && s.holder.Some? && Enabled(s, Move(s.holder.value))
    ensures var t := Next(s, Move(s.holder.value));
            Inv(t, f0) && NoBadPointer(t) && (t.holder.None? ==> !t.locked)
  {
    StepKeeps(s, Move(s.holder.value), f0);
  }

  // The call that a hart is in.
  function OpOf(pc: Pc): Op {
    match pc
    case Spin(op) => op
    case Scan(n, _, _) => Malloc(n)
    case Setting(n, _, _) => Malloc(n)
    case Clearing(b, n, _) => Free(b, n)
    case Wiping(b, n, _, _) => Free(b, n)
    case Leaving(op, _) => op
    case _ => FreeOther
  }

  // It is over, and on record.
  ghost predicate Returned(s: State, t: State, h: nat, op: Op) {
    !t.locked && h < |t.harts| && t.harts[h].Out? && exists r :: t.log == s.log + [Entry(h, op, r)]
  }

  // The holder's step is one of its call, or the last.
  ghost predicate GoesOn(s: State, t: State, h: nat) {
    h < |s.harts| == |t.harts|
    && (t.fault || (t.holder == s.holder && t.log == s.log && OpOf(t.harts[h]) == OpOf(s.harts[h]))
        || (t.holder.None? && Returned(s, t, h, OpOf(s.harts[h]))))
  }

  lemma HolderCalls(s: State, f0: seq<Flag>)
    requires Inv(s, f0) && NoBadPointer(s) && s.holder.Some? && Enabled(s, Move(s.holder.value))
    ensures GoesOn(s, Next(s, Move(s.holder.value)), s.holder.value)
  {
    var h := s.holder.value;
    if s.harts[h].Leaving? { LastMove(s, h); } else { InnerMove(s, h); }
  }

  lemma LastMove(s: State, h: nat)
    requires Enabled(s, Move(h)) && s.harts[h].Leaving?
    ensures var t := Next(s, Move(h)); |t.harts| == |s.harts| && t.holder.None? && Returned(s, t, h, OpOf(s.harts[h]))
  {
    assert Next(s, Move(h)).log == s.log + [Entry(h, s.harts[h].op, s.harts[h].result)];
  }

  lemma InnerMove(s: State, h: nat)
    requires Enabled(s, Move(h)) && !s.harts[h].Leaving? && !s.harts[h].Failing?
    ensures var t := Next(s, Move(h));
            |t.harts| == |s.harts|
            && (t.fault || (t.holder == s.holder && t.log == s.log && OpOf(t.harts[h]) == OpOf(s.harts[h])))
  {
  }

  predicate ByHolder(steps: seq<Step>, h: nat) { forall i :: 0 <= i < |steps| ==> steps[i] == Move(h) }

  // So in every run in which free is called on pages only, a lock that is taken is given up after at
  // most Left(s) moves of the hart that has it, with its call on record, or its scan leaves the table.
  lemma {:induction false} LockReturns(s: State, f0: seq<Flag>) returns (steps: seq<Step>)
    requires Inv(s, f0) && NoBadPointer(s) && s.holder.Some? && !s.fault
    ensures |steps| <= Left(s) && ByHolder(steps, s.holder.value) && Legal(s, steps)
    ensures s.holder.value < |s.harts|
    ensures After(s, steps).fault
            || Returned(s, After(s, steps), s.holder.value, OpOf(s.harts[s.holder.value]))
    decreases Left(s)
  {
    var h := s.holder.value;
    var t := Next(s, Move(h));
    HolderMoves(s, f0);
    HolderKeeps(s, f0);
    HolderCalls(s, f0);
    var rest: seq<Step> := [];
    if !t.fault && t.holder.Some? { rest := LockReturns(t, f0); }
    steps := [Move(h)] + rest;
    assert steps[1..] == rest;
  }

  // And a hart that tries when the lock is free gets it, and makes its call.
  lemma {:induction false} CallReturns(s: State, h: nat, f0: seq<Flag>) returns (steps: seq<Step>)
    requires Inv(s, f0) && NoBadPointer(s) && h < |s.harts| && s.harts[h].Spin? && !s.locked && !s.fault
    ensures Legal(s, [Swap(h)] + steps) && ByHolder(steps, h)
    ensures var t := After(s, [Swap(h)] + steps); t.fault || Returned(s, t, h, s.harts[h].op)
  {
    var t := Next(s, Swap(h));
    StepKeeps(s, Swap(h), f0);
    GoodStep(s, Swap(h));
    steps := LockReturns(t, f0);
    assert ([Swap(h)] + steps)[1..] == steps;
  }

  // Once free has returned through its error path nobody gets the lock again: every later call spins.
  lemma {:induction false} Abandoned(s: State, steps: seq<Step>, f0: seq<Flag>)
    requires Inv(s, f0) && s.abandoned && Legal(s, steps)
    ensures var t := After(s, steps);
            t.abandoned && t.log == s.log && t.flags == s.flags
            && forall h :: 0 <= h < |t.harts| ==> !Inside(t.harts[h])
    decreases steps
  {
    if steps != [] {
      StepKeeps(s, steps[0], f0);
      Abandoned(Next(s, steps[0]), steps[1..], f0);
    }
  }
}
