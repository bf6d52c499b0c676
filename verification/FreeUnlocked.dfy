// mem.c from day 4 on: malloc takes the lock and free does not. A step is one access to the lock or
// to one table entry; steps of harts interleave freely.

module FreeUnlocked {
  import opened PageAllocator
  import opened MallocCalls
  import opened Options

  datatype Run = Run(s: nat, n: nat)

  datatype Pc =
    | Out
    | Spin(n: nat)
    | Scan(n: nat, start: nat, j: nat)
    | Setting(n: nat, start: nat, k: nat)
    | Leaving(n: nat, result: Option<nat>)
    | Clearing(b: Run, i: nat)
    | Wiping(b: Run, i: nat, more: bool)

  // The lock word, the table, the harts, the blocks returned and not yet passed to free, the calls
  // that have returned, and whether an access has left the table. No step looks at the holder, nor at
  // the entries cleared since the lock was last taken that the scan of its holder had passed by then.
  datatype State = State(locked: bool, holder: Option<nat>, flags: seq<Flag>, harts: seq<Pc>, held: set<Run>,
                         log: seq<Entry>, behind: set<nat>, fault: bool)

  function Initial(pages: nat, harts: nat): State {
    State(false, None, seq(pages, _ => 0), seq(harts, _ => Out), {}, [], {}, false)
  }

  datatype Step = CallMalloc(h: nat, n: nat) | CallFree(h: nat, b: Run) | Swap(h: nat) | Move(h: nat)

  predicate Freeing(pc: Pc) { pc.Clearing? || pc.Wiping? }

  // Inside malloc, with the lock.
  predicate Locking(pc: Pc) { pc.Scan? || pc.Setting? || pc.Leaving? }

  predicate Enabled(s: State, step: Step) {
    !s.fault && step.h < |s.harts| &&
    match step
    case CallMalloc(h, n) => s.harts[h].Out? && n > 0
    case CallFree(h, b) => s.harts[h].Out? && b in s.held
    case Swap(h) => s.harts[h].Spin?
    case Move(h) => Locking(s.harts[h]) || Freeing(s.harts[h])
  }

  function Next(s: State, step: Step): State
    requires Enabled(s, step)
  {
    var h := step.h;
    match step
    case CallMalloc(_, n) => s.(harts := s.harts[h := Spin(n)])
    case CallFree(_, b) => s.(harts := s.harts[h := Clearing(b, b.s)], held := s.held - {b})
    case Swap(_) =>
      if s.locked then s
      else s.(locked := true, holder := Some(h), harts := s.harts[h := Scan(s.harts[h].n, 0, 0)], behind := {})
    case Move(_) => Moved(s, h, s.harts[h])
  }

  function Moved(s: State, h: nat, pc: Pc): State
    requires h < |s.harts| && (Locking(pc) || Freeing(pc))
  {
    match pc
    case Scan(n, start, j) =>
      var i := start + j;
      if j == n then s.(harts := s.harts[h := Setting(n, start, 0)])
      else if j == 0 && i >= |s.flags| then s.(harts := s.harts[h := Leaving(n, None)])
      else if i >= |s.flags| then s.(fault := true)
      else if s.flags[i] == 0 then s.(harts := s.harts[h := Scan(n, start, j + 1)])
      else s.(harts := s.harts[h := Scan(n, i + 1, 0)])
    case Setting(n, start, k) =>
      if k < n then
        if start + k >= |s.flags| then s.(fault := true)
        else s.(flags := s.flags[start + k := 1], harts := s.harts[h := Setting(n, start, k + 1)])
      else if !(0 < start + n <= |s.flags|) then s.(fault := true)
      else s.(flags := s.flags[start + n - 1 := 2], harts := s.harts[h := Leaving(n, Some(start))])
    case Leaving(n, result) =>
      s.(locked := false, holder := None, harts := s.harts[h := Out],
         log := s.log + [Entry(h, Op.Malloc(n), result)],
         held := if result.Some? then s.held + {Run(result.value, n)} else s.held)
    case Clearing(b, i) =>
      if i >= |s.flags| then s.(fault := true)
      else s.(harts := s.harts[h := Wiping(b, i, s.flags[i] == 1)])
    case Wiping(b, i, more) =>
      if i >= |s.flags| then s.(fault := true)
      else
        s.(flags := s.flags[i := 0], harts := s.harts[h := if more then Clearing(b, i + 1) else Out],
           log := if more then s.log else s.log + [Entry(h, Op.Free(b.s, b.n), None)],
           behind := if s.holder.Some? && s.holder.value < |s.harts| && Passed(s.harts[s.holder.value], i)
                     then s.behind + {i} else s.behind)
    case _ => s
  }

  // The scan of a hart at pc has gone past entry i.
  predicate Passed(pc: Pc, i: nat) {
    match pc
    case Scan(_, start, j) => i < start + j
    case Setting(_, start, _) => i < start
    case Leaving(_, result) => result.Some? ==> i < result.value
    case _ => false
  }

  // ---------- The invariant ----------

  // The pages a hart has taken and not yet handed over or freed.
  function Claim(pc: Pc): Option<Run> {
    match pc
    case Setting(n, start, _) => Some(Run(start, n))
    case Leaving(n, Some(start)) => Some(Run(start, n))
    case Clearing(b, i) => if b.s <= i < b.s + b.n then Some(Run(i, b.s + b.n - i)) else None
    case Wiping(b, i, _) => if b.s <= i < b.s + b.n then Some(Run(i, b.s + b.n - i)) else None
    case _ => None
  }

  predicate Meets(a: Run, b: Run) { a.s < b.s + b.n && b.s < a.s + a.n }

  predicate Covers(b: Run, p: int) { b.s <= p < b.s + b.n }

  // The pages of b are flagged 1 ... 1 2.
  predicate Flagged(f: seq<Flag>, b: Run) {
    b.n > 0 && b.s + b.n <= |f| && forall p :: b.s <= p < b.s + b.n ==> f[p] == if p == b.s + b.n - 1 then 2 else 1
  }

  predicate PcOk(f: seq<Flag>, pc: Pc) {
    match pc
    case Out => true
    case Spin(n) => n > 0
    case Scan(n, start, j) =>
      n > 0 && j <= n && (j > 0 ==> start + j <= |f|) && forall p :: start <= p < start + j ==> f[p] == 0
    case Setting(n, start, k) =>
      0 < n && k <= n && start + n <= |f|
      && forall p :: start <= p < start + n ==> f[p] == if p < start + k then 1 else 0
    case Leaving(n, result) => n > 0 && (result.Some? ==> Flagged(f, Run(result.value, n)))
    case Clearing(b, i) => b.s <= i < b.s + b.n && Flagged(f, Run(i, b.s + b.n - i))
    case Wiping(b, i, more) =>
      b.s <= i < b.s + b.n && Flagged(f, Run(i, b.s + b.n - i)) && (more <==> i + 1 < b.s + b.n)
  }

  ghost predicate Exclusive(s: State) {
    && (forall h :: 0 <= h < |s.harts| ==> (Locking(s.harts[h]) <==> s.holder == Some(h)))
    && (s.holder.Some? ==> s.holder.value < |s.harts|)
    && (s.locked <==> s.holder.Some?)
  }

  ghost predicate Flags(s: State) {
    && (forall h :: 0 <= h < |s.harts| ==> PcOk(s.flags, s.harts[h]))
    && (forall b :: b in s.held ==> Flagged(s.flags, b))
  }

  ghost predicate Disjoint(s: State) {
    && (forall a, b :: a in s.held && b in s.held && a != b ==> !Meets(a, b))
    && (forall a, h :: a in s.held && 0 <= h < |s.harts| && Claim(s.harts[h]).Some? ==>
          !Meets(a, Claim(s.harts[h]).value))
    && (forall g, h :: 0 <= g < h < |s.harts| && Claim(s.harts[g]).Some? && Claim(s.harts[h]).Some? ==>
          !Meets(Claim(s.harts[g]).value, Claim(s.harts[h]).value))
  }

  ghost predicate Claimed(s: State, p: int) {
    (exists b :: b in s.held && Covers(b, p))
    || (exists h :: 0 <= h < |s.harts| && Claim(s.harts[h]).Some? && Covers(Claim(s.harts[h]).value, p))
  }

  // No page in use is lost.
  ghost predicate Owned(s: State) {
    forall p :: 0 <= p < |s.flags| && s.flags[p] != 0 ==> Claimed(s, p)
  }

  // An access leaves the table only in a scan of more than one page that has seen the last page free.
  ghost predicate FaultOk(s: State) {
    s.fault ==>
      s.flags != [] && s.flags[|s.flags| - 1] == 0
      && exists h :: 0 <= h < |s.harts| && Overruns(s.harts[h], |s.flags|)
  }

  predicate Overruns(pc: Pc, pages: nat) { pc.Scan? && pc.n > 1 && 0 < pc.j < pc.n && pc.start + pc.j == pages }

  ghost predicate Inv(s: State) { Exclusive(s) && Flags(s) && Disjoint(s) && Owned(s) && FaultOk(s) }

  lemma MallocKeeps(s: State, h: nat, n: nat)
    requires Inv(s) && Enabled(s, CallMalloc(h, n))
    ensures Inv(Next(s, CallMalloc(h, n)))
  {
    ClaimsStay(s, Next(s, CallMalloc(h, n)), h);
  }

  lemma SwapKeeps(s: State, h: nat)
    requires Inv(s) && Enabled(s, Swap(h))
    ensures Inv(Next(s, Swap(h)))
  {
    ClaimsStay(s, Next(s, Swap(h)), h);
  }

  lemma FreeKeeps(s: State, h: nat, b: Run)
    requires Inv(s) && Enabled(s, CallFree(h, b))
    ensures Inv(Next(s, CallFree(h, b)))
  {
    var t := Next(s, CallFree(h, b));
    assert Claim(t.harts[h]) == Some(b);
    forall p | 0 <= p < |t.flags| && t.flags[p] != 0 ensures Claimed(t, p) {
      assert Claimed(s, p);
      if !Covers(b, p) { ClaimStays(s.(held := t.held), t, h, p); }
    }
  }

  // Flagged pages and free pages do not meet.
  lemma FreeApart(f: seq<Flag>, a: Run, b: Run)
    requires Flagged(f, a) && b.n > 0 && forall p :: b.s <= p < b.s + b.n && p < |f| ==> f[p] == 0
    ensures !Meets(a, b)
  {
    var p := if a.s < b.s then b.s else a.s;
    assert Meets(a, b) ==> Covers(a, p) && Covers(b, p);
    assert Covers(a, p) ==> Used(f, p);
  }

  lemma FoundApart(s: State, h: nat)
    requires Inv(s) && h < |s.harts| && s.harts[h].Scan? && s.harts[h].j == s.harts[h].n
    ensures var r := Run(s.harts[h].start, s.harts[h].n);
            && (forall a :: a in s.held ==> !Meets(a, r))
            && (forall g :: 0 <= g < |s.harts| && g != h && Claim(s.harts[g]).Some? ==>
                  !Meets(Claim(s.harts[g]).value, r) && !Meets(r, Claim(s.harts[g]).value))
  {
    var r := Run(s.harts[h].start, s.harts[h].n);
    assert PcOk(s.flags, s.harts[h]);
    forall a | a in s.held ensures !Meets(a, r) { FreeApart(s.flags, a, r); }
    forall g | 0 <= g < |s.harts| && g != h && Claim(s.harts[g]).Some?
      ensures !Meets(Claim(s.harts[g]).value, r)
    {
      assert PcOk(s.flags, s.harts[g]);
      FreeApart(s.flags, Claim(s.harts[g]).value, r);
    }
  }

  lemma FoundKeeps(s: State, h: nat)
    requires Inv(s) && Enabled(s, Move(h)) && s.harts[h].Scan? && s.harts[h].j == s.harts[h].n
    ensures Inv(Next(s, Move(h)))
  {
    assert PcOk(s.flags, s.harts[h]);
    FoundApart(s, h);
    ClaimsStay(s, Next(s, Move(h)), h);
  }

  lemma ScanKeeps(s: State, h: nat)
    requires Inv(s) && Enabled(s, Move(h)) && s.harts[h].Scan? && s.harts[h].j < s.harts[h].n
    ensures Inv(Next(s, Move(h)))
  {
    assert PcOk(s.flags, s.harts[h]);
    var t := Next(s, Move(h));
    assert Claim(t.harts[h]) == None && PcOk(t.flags, t.harts[h]) && Locking(t.harts[h]);
    ClaimsStay(s, t, h);
  }

  // A page claimed by another hart or a block held stays claimed.
  lemma ClaimStays(s: State, t: State, h: nat, p: int)
    requires h < |s.harts| == |t.harts| && s.held <= t.held && Claimed(s, p)
    requires forall g :: 0 <= g < |s.harts| && g != h ==> t.harts[g] == s.harts[g]
    ensures Claimed(t, p) || (Claim(s.harts[h]).Some? && Covers(Claim(s.harts[h]).value, p))
  {
  }

  lemma ClaimsStay(s: State, t: State, h: nat)
    requires h < |s.harts| == |t.harts| && s.held <= t.held && s.flags == t.flags && Owned(s)
    requires forall g :: 0 <= g < |s.harts| && g != h ==> t.harts[g] == s.harts[g]
    requires Claim(s.harts[h]).None?
    ensures Owned(t)
  {
    forall p | 0 <= p < |t.flags| && t.flags[p] != 0 ensures Claimed(t, p) { ClaimStays(s, t, h, p); }
  }

  // Pages other than those claimed by h keep their flags when h writes to a page of its own.
  lemma OthersOk(s: State, h: nat, i: nat, v: Flag)
    requires Inv(s) && h < |s.harts| && i < |s.flags|
    requires Claim(s.harts[h]).Some? && Covers(Claim(s.harts[h]).value, i)
    requires s.flags[i] != 0 || Locking(s.harts[h])
    ensures forall b :: b in s.held ==> Flagged(s.flags[i := v], b)
    ensures forall g :: 0 <= g < |s.harts| && g != h ==> PcOk(s.flags[i := v], s.harts[g])
  {
    var f, c := s.flags[i := v], Claim(s.harts[h]).value;
    forall b | b in s.held ensures Flagged(f, b) {
      assert Flagged(s.flags, b) && !Meets(b, c);
      assert !Covers(b, i);
    }
    forall g | 0 <= g < |s.harts| && g != h ensures PcOk(f, s.harts[g]) {
      assert PcOk(s.flags, s.harts[g]);
      if Claim(s.harts[g]).Some? { assert !Covers(Claim(s.harts[g]).value, i); }
    }
  }

  lemma SetFlags(s: State, h: nat)
    requires Inv(s) && Enabled(s, Move(h)) && s.harts[h].Setting?
    ensures Flags(Next(s, Move(h))) && Exclusive(Next(s, Move(h)))
  {
    var pc := s.harts[h];
    assert PcOk(s.flags, pc);
    if pc.k < pc.n { OthersOk(s, h, pc.start + pc.k, 1); } else { OthersOk(s, h, pc.start + pc.n - 1, 2); }
    var t := Next(s, Move(h));
    assert PcOk(t.flags, t.harts[h]) && Locking(t.harts[h]);
  }

  lemma SetKeeps(s: State, h: nat)
    requires Inv(s) && Enabled(s, Move(h)) && s.harts[h].Setting?
    ensures Inv(Next(s, Move(h)))
  {
    var pc, t := s.harts[h], Next(s, Move(h));
    assert PcOk(s.flags, pc);
    SetFlags(s, h);
    assert Claim(t.harts[h]) == Claim(pc);
    forall p | 0 <= p < |t.flags| && t.flags[p] != 0 ensures Claimed(t, p) {
      if s.flags[p] != 0 { ClaimStays(s, t, h, p); }
    }
  }

  lemma LeaveKeeps(s: State, h: nat)
    requires Inv(s) && Enabled(s, Move(h)) && s.harts[h].Leaving?
    ensures Inv(Next(s, Move(h)))
  {
    assert PcOk(s.flags, s.harts[h]);
    var t := Next(s, Move(h));
    forall p | 0 <= p < |t.flags| && t.flags[p] != 0 ensures Claimed(t, p) { ClaimStays(s, t, h, p); }
  }

  lemma ClearKeeps(s: State, h: nat)
    requires Inv(s) && Enabled(s, Move(h)) && s.harts[h].Clearing?
    ensures Inv(Next(s, Move(h)))
  {
    assert PcOk(s.flags, s.harts[h]);
    var t := Next(s, Move(h));
    assert Claim(t.harts[h]) == Claim(s.harts[h]);
    forall p | 0 <= p < |t.flags| && t.flags[p] != 0 ensures Claimed(t, p) { ClaimStays(s, t, h, p); }
  }

  lemma WipeFlags(s: State, h: nat)
    requires Inv(s) && Enabled(s, Move(h)) && s.harts[h].Wiping?
    ensures Flags(Next(s, Move(h))) && Exclusive(Next(s, Move(h)))
  {
    assert PcOk(s.flags, s.harts[h]);
    OthersOk(s, h, s.harts[h].i, 0);
  }

  lemma WipeKeeps(s: State, h: nat)
    requires Inv(s) && Enabled(s, Move(h)) && s.harts[h].Wiping?
    ensures Inv(Next(s, Move(h)))
  {
    var pc, t := s.harts[h], Next(s, Move(h));
    assert PcOk(s.flags, pc);
    WipeFlags(s, h);
    forall p | 0 <= p < |t.flags| && t.flags[p] != 0 ensures Claimed(t, p) { ClaimStays(s, t, h, p); }
  }

  lemma StepKeeps(s: State, step: Step)
    requires Inv(s) && Enabled(s, step)
    ensures Inv(Next(s, step))
  {
    match step
    case CallMalloc(h, n) => MallocKeeps(s, h, n);
    case CallFree(h, b) => FreeKeeps(s, h, b);
    case Swap(h) => SwapKeeps(s, h);
    case Move(h) =>
      assert PcOk(s.flags, s.harts[h]);
      match s.harts[h]
      case Scan(n, _, j) => if j == n { FoundKeeps(s, h); } else { ScanKeeps(s, h); }
      case Setting(_, _, _) => SetKeeps(s, h);
      case Leaving(_, _) => LeaveKeeps(s, h);
      case Clearing(_, _) => ClearKeeps(s, h);
      case Wiping(_, _, _) => WipeKeeps(s, h);
      case _ =>
  }

  // ---------- Every interleaving ----------

  predicate Legal(s: State, steps: seq<Step>)
    decreases steps
  {
    steps == [] || (Enabled(s, steps[0]) && Legal(Next(s, steps[0]), steps[1..]))
  }

  function After(s: State, steps: seq<Step>): State
    requires Legal(s, steps)
    decreases steps
  {
    if steps == [] then s else After(Next(s, steps[0]), steps[1..])
  }

  lemma {:induction false} RunKeeps(s: State, steps: seq<Step>)
    requires Inv(s) && Legal(s, steps)
    ensures Inv(After(s, steps))
    decreases steps
  {
    if steps != [] {
      StepKeeps(s, steps[0]);
      RunKeeps(Next(s, steps[0]), steps[1..]);
    }
  }

  // Without a lock around free, live blocks still never share a page and lie inside the table.
  lemma {:induction false} NoOverlap(pages: nat, harts: nat, steps: seq<Step>, a: Run, b: Run)
    requires Legal(Initial(pages, harts), steps)
    requires var s := After(Initial(pages, harts), steps);
             a in s.held && b in s.held && a != b
    ensures a.s + a.n <= b.s || b.s + b.n <= a.s
    ensures a.n > 0 && a.s + a.n <= |After(Initial(pages, harts), steps).flags|
  {
    RunKeeps(Initial(pages, harts), steps);
    assert Flagged(After(Initial(pages, harts), steps).flags, a);
    assert Flagged(After(Initial(pages, harts), steps).flags, b);
  }

  // And no page is lost: when no hart is inside malloc or free, the pages in use are exactly those of
  // the live blocks.
  lemma {:induction false} NothingLost(pages: nat, harts: nat, steps: seq<Step>, p: nat)
    requires Legal(Initial(pages, harts), steps)
    requires var s := After(Initial(pages, harts), steps);
             p < |s.flags| && forall h :: 0 <= h < |s.harts| ==> s.harts[h].Out?
    ensures var s := After(Initial(pages, harts), steps);
            s.flags[p] != 0 <==> exists b :: b in s.held && Covers(b, p)
  {
    RunKeeps(Initial(pages, harts), steps);
    var s := After(Initial(pages, harts), steps);
    if s.flags[p] != 0 {
      assert Claimed(s, p);
    } else {
      forall b | b in s.held ensures !Covers(b, p) { assert Flagged(s.flags, b); }
    }
  }

  // An access leaves the table only in a scan of more than one page that has seen the last page free;
  // never in marking or clearing.
  lemma {:induction false} FaultIsScan(pages: nat, harts: nat, steps: seq<Step>)
    requires Legal(Initial(pages, harts), steps) && After(Initial(pages, harts), steps).fault
    ensures var s := After(Initial(pages, harts), steps);
            s.flags != [] && s.flags[|s.flags| - 1] == 0
            && exists h :: 0 <= h < |s.harts| && Overruns(s.harts[h], |s.flags|)
  {
    RunKeeps(Initial(pages, harts), steps);
  }

  // ---------- The lowest run, or not ----------

  predicate Stop(f: seq<Flag>, behind: set<nat>, p: nat) { p < |f| && (f[p] != 0 || p in behind) }

  // At t there is no room for n pages, or an entry below limit is in use, or was when the scan passed.
  ghost predicate Shut(f: seq<Flag>, behind: set<nat>, t: nat, n: nat, limit: nat) {
    t + n > |f| || exists p: nat :: t <= p < t + n && p < limit && Stop(f, behind, p)
  }

  ghost predicate SearchedTo(f: seq<Flag>, behind: set<nat>, n: nat, limit: nat) {
    forall t: nat :: t < limit ==> Shut(f, behind, t, n, limit)
  }

  // How far the scan of a hart at pc has come, and for how many pages it looks.
  function Limit(pc: Pc, pages: nat): nat {
    match pc
    case Scan(_, start, _) => start
    case Setting(_, start, _) => start
    case Leaving(_, Some(start)) => start
    case _ => pages
  }

  function Wanted(pc: Pc): nat {
    match pc
    case Scan(n, _, _) => n
    case Setting(n, _, _) => n
    case Leaving(n, _) => n
    case _ => 0
  }

  ghost predicate Searched(s: State) {
    s.holder.Some? ==>
      s.holder.value < |s.harts|
      && var pc := s.harts[s.holder.value];
         SearchedTo(s.flags, s.behind, Wanted(pc), Limit(pc, |s.flags|))
  }

  // Entries that stop a scan may only come in addition.
  lemma SearchStays(f: seq<Flag>, behind: set<nat>, f': seq<Flag>, behind': set<nat>, n: nat, limit: nat)
    requires SearchedTo(f, behind, n, limit) && |f'| == |f|
    requires forall p: nat :: p < limit && Stop(f, behind, p) ==> Stop(f', behind', p)
    ensures SearchedTo(f', behind', n, limit)
  {
    forall t: nat | t < limit ensures Shut(f', behind', t, n, limit) { assert Shut(f, behind, t, n, limit); }
  }

  // The scan goes past an entry in use: no run that holds it is free.
  lemma SearchPasses(f: seq<Flag>, behind: set<nat>, n: nat, start: nat, i: nat)
    requires SearchedTo(f, behind, n, start) && start <= i < |f| && i - start < n && f[i] != 0
    ensures SearchedTo(f, behind, n, i + 1)
  {
    assert Stop(f, behind, i);
    var limit := i + 1;
    forall t: nat | t < limit ensures Shut(f, behind, t, n, limit) {
      if t < start { assert Shut(f, behind, t, n, start); }
    }
  }

  lemma HolderSearches(s: State, h: nat)
    requires Inv(s) && Searched(s) && Enabled(s, Move(h)) && s.holder == Some(h)
    ensures Searched(Next(s, Move(h)))
  {
    var pc, t := s.harts[h], Next(s, Move(h));
    assert PcOk(s.flags, pc);
    if pc.Scan? {
      var i := pc.start + pc.j;
      if pc.j < pc.n && i < |s.flags| && s.flags[i] != 0 { SearchPasses(s.flags, s.behind, pc.n, pc.start, i); }
      if pc.j == 0 && i >= |s.flags| { SearchEnds(s.flags, s.behind, pc.n, pc.start); }
    } else if pc.Setting? {
      SearchStays(s.flags, s.behind, t.flags, t.behind, pc.n, pc.start);
    }
  }

  lemma SearchEnds(f: seq<Flag>, behind: set<nat>, n: nat, start: nat)
    requires SearchedTo(f, behind, n, start) && start >= |f|
    ensures SearchedTo(f, behind, n, |f|)
  {
    forall t: nat | t < |f| ensures Shut(f, behind, t, n, |f|) { assert Shut(f, behind, t, n, start); }
  }

  lemma OtherSearches(s: State, step: Step)
    requires Inv(s) && Searched(s) && Enabled(s, step) && s.holder.Some? && step.h != s.holder.value
    ensures Searched(Next(s, step))
  {
    var g, t := s.holder.value, Next(s, step);
    var pc := s.harts[g];
    assert t.holder == s.holder && t.harts[g] == pc && Locking(pc);
    SearchStays(s.flags, s.behind, t.flags, t.behind, Wanted(pc), Limit(pc, |s.flags|));
  }

  lemma StepSearches(s: State, step: Step)
    requires Inv(s) && Searched(s) && Enabled(s, step)
    ensures Searched(Next(s, step))
  {
    if s.holder.Some? && step.h != s.holder.value {
      OtherSearches(s, step);
    } else if s.holder.Some? {
      HolderSearches(s, step.h);
    }
  }

  lemma {:induction false} RunSearches(s: State, steps: seq<Step>)
    requires Inv(s) && Searched(s) && Legal(s, steps)
    ensures Searched(After(s, steps))
    decreases steps
  {
    if steps != [] {
      StepKeeps(s, steps[0]);
      StepSearches(s, steps[0]);
      RunSearches(Next(s, steps[0]), steps[1..]);
    }
  }

  // A scan restarts, and ends in the null pointer, only behind an entry that was in use when it passed.
  predicate Halted(s: State, pc: Pc) {
    match pc
    case Scan(_, start, _) => start > 0 ==> Stop(s.flags, s.behind, start - 1)
    case Leaving(_, None) => s.flags != [] ==> Stop(s.flags, s.behind, |s.flags| - 1)
    case _ => true
  }

  predicate HolderHalted(s: State) {
    s.holder.Some? && s.holder.value < |s.harts| ==> Halted(s, s.harts[s.holder.value])
  }

  lemma OwnHalts(s: State, h: nat)
    requires HolderHalted(s) && Enabled(s, Move(h)) && s.holder == Some(h) && Locking(s.harts[h])
    requires PcOk(s.flags, s.harts[h])
    ensures HolderHalted(Next(s, Move(h)))
  {
  }

  lemma WipeHalts(s: State, h: nat)
    requires HolderHalted(s) && Enabled(s, Move(h)) && s.harts[h].Wiping? && s.holder.Some? && s.holder.value != h
    requires s.holder.value < |s.harts| && PcOk(s.flags, s.harts[s.holder.value])
    ensures HolderHalted(Next(s, Move(h)))
  {
  }

  lemma StepHalts(s: State, step: Step)
    requires Inv(s) && HolderHalted(s) && Enabled(s, step)
    ensures HolderHalted(Next(s, step))
  {
    assert PcOk(s.flags, s.harts[step.h]);
    if step.Move? && Locking(s.harts[step.h]) {
      OwnHalts(s, step.h);
    } else if step.Move? && s.harts[step.h].Wiping? && s.holder.Some? {
      assert PcOk(s.flags, s.harts[s.holder.value]);
      WipeHalts(s, step.h);
    } else {
      RestHalts(s, step);
    }
  }

  lemma RestHalts(s: State, step: Step)
    requires Exclusive(s) && HolderHalted(s) && Enabled(s, step)
    requires step.Move? ==> s.harts[step.h].Clearing? || (s.harts[step.h].Wiping? && s.holder.None?)
    ensures HolderHalted(Next(s, step))
  {
  }

  lemma {:induction false} RunHalts(s: State, steps: seq<Step>)
    requires Inv(s) && HolderHalted(s) && Legal(s, steps)
    ensures HolderHalted(After(s, steps))
    decreases steps
  {
    if steps != [] {
      StepKeeps(s, steps[0]);
      StepHalts(s, steps[0]);
      RunHalts(Next(s, steps[0]), steps[1..]);
    }
  }

  // A malloc that is about to return nothing has found the last page in use.
  lemma {:induction false} NullExactly(pages: nat, harts: nat, steps: seq<Step>, h: nat)
    requires Legal(Initial(pages, harts), steps)
    requires var s := After(Initial(pages, harts), steps);
             h < |s.harts| && s.harts[h].Leaving? && s.harts[h].result.None?
    ensures var s := After(Initial(pages, harts), steps);
            s.flags == [] || s.flags[|s.flags| - 1] != 0 || |s.flags| - 1 in s.behind
  {
    RunKeeps(Initial(pages, harts), steps);
    RunHalts(Initial(pages, harts), steps);
    assert Locking(After(Initial(pages, harts), steps).harts[h]);
  }

  // ---------- Every call goes on ----------

  // How many accesses a hart at pc has left at most.
  function Left(pc: Pc, pages: nat): nat {
    match pc
    case Spin(n) => pages + n + 5
    case Scan(n, start, j) => (if start + j <= pages then pages - (start + j) else 0) + n + 4
    case Setting(n, _, k) => (if k <= n then n - k else 0) + 2
    case Leaving(_, _) => 1
    case Clearing(b, i) => if i <= b.s + b.n then 2 * (b.s + b.n - i) + 1 else 0
    case Wiping(b, i, _) => if i <= b.s + b.n then 2 * (b.s + b.n - i) else 0
    case Out => 0
  }

  // Each step of a hart, except a swap that finds the lock taken, brings it nearer to the end of its call, unless
  // it leaves the table; steps of others do not put it off.
  lemma Nearer(s: State, step: Step, h: nat)
    requires Enabled(s, step) && h < |s.harts| && PcOk(s.flags, s.harts[step.h])
    ensures var t := Next(s, step);
            |t.harts| == |s.harts| && (step.h != h ==> t.harts[h] == s.harts[h])
            && (step == Move(h) || (step == Swap(h) && !s.locked) ==>
                  t.fault || Left(t.harts[h], |s.flags|) < Left(s.harts[h], |s.flags|))
  {
  }

  // ---------- What it returns ----------

  // The table as a malloc that is about to return has met it: without the block it has taken.
  function Met(f: seq<Flag>, n: nat, result: Option<nat>): seq<Flag> {
    match result
    case Some(start) => if start + n <= |f| then Clear(f, start, n) else f
    case None => f
  }

  // An entry that was cleared behind the scan has opened a run below the result.
  ghost predicate Opened(f: seq<Flag>, behind: set<nat>, n: nat, result: Option<nat>) {
    exists t: nat, p: nat :: (result.Some? ==> t < result.value) && t <= p < t + n && p in behind
                             && Fit(Met(f, n, result), t, n)
  }

  // A malloc returns the lowest run that is free at that moment, or nothing when there is none,
  // exactly when no entry cleared behind its scan has opened a lower one.
  lemma {:induction false} LowestExactly(pages: nat, harts: nat, steps: seq<Step>, h: nat)
    requires Legal(Initial(pages, harts), steps)
    requires var s := After(Initial(pages, harts), steps); h < |s.harts| && s.harts[h].Leaving?
    ensures var s := After(Initial(pages, harts), steps);
            var n, result := s.harts[h].n, s.harts[h].result;
            Correct(Met(s.flags, n, result), Entry(h, Op.Malloc(n), result))
            <==> !Opened(s.flags, s.behind, n, result)
  {
    RunKeeps(Initial(pages, harts), steps);
    RunSearches(Initial(pages, harts), steps);
    var s := After(Initial(pages, harts), steps);
    LeavesLowest(s, h);
  }

  lemma LeavesLowest(s: State, h: nat)
    requires Inv(s) && Searched(s) && h < |s.harts| && s.harts[h].Leaving?
    ensures var n, result := s.harts[h].n, s.harts[h].result;
            Correct(Met(s.flags, n, result), Entry(h, Op.Malloc(n), result))
            <==> !Opened(s.flags, s.behind, n, result)
  {
    var pc, n, result := s.harts[h], s.harts[h].n, s.harts[h].result;
    var g := Met(s.flags, n, result);
    assert PcOk(s.flags, pc) && Locking(pc);
    var limit := Limit(pc, |s.flags|);
    forall t: nat | t < limit && Fit(g, t, n) ensures Opened(s.flags, s.behind, n, result) {
      assert Shut(s.flags, s.behind, t, n, limit);
      var p: nat :| t <= p < t + n && p < limit && Stop(s.flags, s.behind, p);
      assert g[p] == 0;
    }
  }

  // ---------- One after the other, or not ----------

  // Entry p has been cleared by a free that has not returned.
  predicate Wiped(s: State, p: int) {
    exists h :: 0 <= h < |s.harts| && Freeing(s.harts[h]) && s.harts[h].b.s <= p < s.harts[h].i
  }

  // Page p is one that the malloc inside has taken.
  predicate Taking(s: State, p: int) {
    s.holder.Some? && s.holder.value < |s.harts| && Locking(s.harts[s.holder.value])
    && Claim(s.harts[s.holder.value]).Some? && Covers(Claim(s.harts[s.holder.value]).value, p)
  }

  // What entry p owes to the table f that the calls which have returned leave, made one after the other: it
  // differs where a free has cleared it in advance, and where the malloc inside has taken it, which was free or
  // cleared in advance.
  predicate EntryOk(s: State, f: seq<Flag>, p: nat)
    requires p < |s.flags| == |f|
  {
    if Taking(s, p) then f[p] == 0 || Wiped(s, p) else s.flags[p] == if Wiped(s, p) then 0 else f[p]
  }

  ghost predicate FromCalls(s: State, f: seq<Flag>) {
    |s.flags| == |f| && forall p: nat :: p < |f| ==> EntryOk(s, f, p)
  }

  // Live blocks and blocks being freed are different blocks of that table.
  ghost predicate Whole(s: State, f: seq<Flag>) {
    WellFormed(f)
    && (forall b :: b in s.held ==> IsBlock(f, b.s, b.n))
    && (forall h :: 0 <= h < |s.harts| && Freeing(s.harts[h]) ==>
          IsBlock(f, s.harts[h].b.s, s.harts[h].b.n) && s.harts[h].b !in s.held)
    && (forall g, h :: 0 <= g < h < |s.harts| && Freeing(s.harts[g]) && Freeing(s.harts[h]) ==>
          s.harts[g].b != s.harts[h].b)
  }

  ghost predicate SerialInv(s: State, f0: seq<Flag>) {
    AllCorrect(f0, s.log) && Whole(s, Replay(f0, s.log)) && FromCalls(s, Replay(f0, s.log))
  }

  // The two things that can go wrong for a malloc that is about to return: it has taken a page of a block
  // that is half cleared, ...
  predicate Early(s: State, n: nat, result: Option<nat>) {
    result.Some? && exists p: nat :: result.value <= p < result.value + n && Wiped(s, p)
  }

  // ... or an entry cleared behind its scan has opened a lower run, of pages that are free for good.
  ghost predicate Missed(s: State, n: nat, result: Option<nat>) {
    exists t: nat, p: nat :: (result.Some? ==> t < result.value) && t <= p < t + n && p in s.behind
                             && LowerRun(s, n, result, t)
  }

  ghost predicate LowerRun(s: State, n: nat, result: Option<nat>, t: nat) {
    Fit(Met(s.flags, n, result), t, n) && forall q :: t <= q < t + n ==> !Wiped(s, q)
  }

  ghost predicate InTime(s: State, step: Step) {
    step.Move? && step.h < |s.harts| && s.harts[step.h].Leaving? ==>
      var n, result := s.harts[step.h].n, s.harts[step.h].result;
      !Early(s, n, result) && !Missed(s, n, result)
  }

  ghost predicate AllInTime(s: State, steps: seq<Step>)
    requires Legal(s, steps)
    decreases steps
  {
    steps == [] || (InTime(s, steps[0]) && AllInTime(Next(s, steps[0]), steps[1..]))
  }

  // ---------- The steps between returns ----------

  lemma SameWiped(s: State, t: State, h: nat, p: int)
    requires |s.harts| == |t.harts| && h < |s.harts|
    requires forall g :: 0 <= g < |s.harts| && g != h ==> t.harts[g] == s.harts[g]
    requires Freeing(s.harts[h]) && s.harts[h].b.s <= p < s.harts[h].i
             <==> Freeing(t.harts[h]) && t.harts[h].b.s <= p < t.harts[h].i
    ensures Wiped(t, p) <==> Wiped(s, p)
  {
  }

  lemma CallsSerial(s: State, step: Step, f: seq<Flag>)
    requires Exclusive(s) && FromCalls(s, f) && Enabled(s, step) && (step.CallMalloc? || step.CallFree?)
    ensures FromCalls(Next(s, step), f)
  {
    var t := Next(s, step);
    forall p: nat | p < |f| ensures EntryOk(t, f, p) {
      assert EntryOk(s, f, p);
      SameWiped(s, t, step.h, p);
    }
  }

  lemma SwapSerial(s: State, h: nat, f: seq<Flag>)
    requires Exclusive(s) && FromCalls(s, f) && Enabled(s, Swap(h))
    ensures FromCalls(Next(s, Swap(h)), f)
  {
    var t := Next(s, Swap(h));
    forall p: nat | p < |f| ensures EntryOk(t, f, p) {
      assert EntryOk(s, f, p);
      SameWiped(s, t, h, p);
    }
  }

  lemma ScanSerial(s: State, h: nat, f: seq<Flag>)
    requires Exclusive(s) && FromCalls(s, f) && Enabled(s, Move(h)) && s.harts[h].Scan? && PcOk(s.flags, s.harts[h])
    ensures FromCalls(Next(s, Move(h)), f)
  {
    var t := Next(s, Move(h));
    forall p: nat | p < |f| ensures EntryOk(t, f, p) {
      assert EntryOk(s, f, p);
      SameWiped(s, t, h, p);
    }
  }

  lemma SetSerial(s: State, h: nat, f: seq<Flag>)
    requires Exclusive(s) && FromCalls(s, f) && Enabled(s, Move(h)) && s.harts[h].Setting? && PcOk(s.flags, s.harts[h])
    ensures FromCalls(Next(s, Move(h)), f)
  {
    var t := Next(s, Move(h));
    forall p: nat | p < |f| ensures EntryOk(t, f, p) {
      assert EntryOk(s, f, p);
      SameWiped(s, t, h, p);
    }
  }

  lemma ReadSerial(s: State, h: nat, f: seq<Flag>)
    requires Exclusive(s) && FromCalls(s, f) && Enabled(s, Move(h)) && s.harts[h].Clearing? && PcOk(s.flags, s.harts[h])
    ensures FromCalls(Next(s, Move(h)), f)
  {
    var t := Next(s, Move(h));
    forall p: nat | p < |f| ensures EntryOk(t, f, p) {
      assert EntryOk(s, f, p);
      SameWiped(s, t, h, p);
    }
  }

  // One more entry of the block is cleared.
  lemma MoreWiped(s: State, t: State, h: nat, p: int)
    requires |s.harts| == |t.harts| && h < |s.harts| && Freeing(s.harts[h]) && Freeing(t.harts[h])
    requires t.harts[h].b == s.harts[h].b && t.harts[h].i == s.harts[h].i + 1 && s.harts[h].b.s <= s.harts[h].i
    requires forall g :: 0 <= g < |s.harts| && g != h ==> t.harts[g] == s.harts[g]
    ensures Wiped(t, p) <==> Wiped(s, p) || p == s.harts[h].i
  {
    if Wiped(s, p) {
      var g :| 0 <= g < |s.harts| && Freeing(s.harts[g]) && s.harts[g].b.s <= p < s.harts[g].i;
      assert Freeing(t.harts[g]) && t.harts[g].b.s <= p < t.harts[g].i;
    }
    if p == s.harts[h].i { assert t.harts[h].b.s <= p < t.harts[h].i; }
  }

  // The entry that a free is about to clear is no page that a malloc has taken.
  lemma NotTaking(s: State, h: nat)
    requires Exclusive(s) && Disjoint(s) && h < |s.harts| && Freeing(s.harts[h]) && PcOk(s.flags, s.harts[h])
    ensures !Taking(s, s.harts[h].i)
  {
    var i := s.harts[h].i;
    if Taking(s, i) {
      var g := s.holder.value;
      assert Covers(Claim(s.harts[h]).value, i) && Covers(Claim(s.harts[g]).value, i);
      assert Meets(Claim(s.harts[h]).value, Claim(s.harts[g]).value);
      assert false;
    }
  }

  lemma WipeOn(s: State, h: nat, f: seq<Flag>)
    requires Exclusive(s) && Disjoint(s) && FromCalls(s, f) && Enabled(s, Move(h))
    requires s.harts[h].Wiping? && s.harts[h].more && PcOk(s.flags, s.harts[h])
    ensures FromCalls(Next(s, Move(h)), f)
  {
    var t := Next(s, Move(h));
    NotTaking(s, h);
    forall p: nat | p < |f| ensures EntryOk(t, f, p) {
      assert EntryOk(s, f, p);
      MoreWiped(s, t, h, p);
      assert Taking(t, p) <==> Taking(s, p);
    }
  }

  // The last entry: the call has returned, and its whole block is free.
  lemma WipeLast(s: State, h: nat, f0: seq<Flag>)
    requires Exclusive(s) && Disjoint(s) && SerialInv(s, f0) && Enabled(s, Move(h))
    requires s.harts[h].Wiping? && !s.harts[h].more && PcOk(s.flags, s.harts[h])
    ensures SerialInv(Next(s, Move(h)), f0)
  {
    var f, b, t := Replay(f0, s.log), s.harts[h].b, Next(s, Move(h));
    FreeWhole(s, h, f);
    ReplayExtend(f0, s.log, Entry(h, Op.Free(b.s, b.n), None));
    NotTaking(s, h);
    forall p: nat | p < |f| ensures EntryOk(t, Clear(f, b.s, b.n), p) {
      assert EntryOk(s, f, p);
      LastWiped(s, t, h, p);
      assert Taking(t, p) <==> Taking(s, p);
    }
  }

  lemma FreeWhole(s: State, h: nat, f: seq<Flag>)
    requires Whole(s, f) && Enabled(s, Move(h)) && s.harts[h].Wiping? && !s.harts[h].more && s.harts[h].i < |s.flags|
    ensures var b := s.harts[h].b; IsBlock(f, b.s, b.n) && Whole(Next(s, Move(h)), Clear(f, b.s, b.n))
  {
    ClearRemoves(f, s.harts[h].b.s, s.harts[h].b.n);
  }

  lemma LastWiped(s: State, t: State, h: nat, p: int)
    requires |s.harts| == |t.harts| && h < |s.harts| && Freeing(s.harts[h]) && t.harts[h].Out?
    requires forall g :: 0 <= g < |s.harts| && g != h ==> t.harts[g] == s.harts[g]
    ensures Wiped(s, p) <==> Wiped(t, p) || s.harts[h].b.s <= p < s.harts[h].i
  {
    if Wiped(s, p) {
      var g :| 0 <= g < |s.harts| && Freeing(s.harts[g]) && s.harts[g].b.s <= p < s.harts[g].i;
      if g != h { assert Freeing(t.harts[g]) && t.harts[g].b.s <= p < t.harts[g].i; }
    }
  }

  // ---------- The return of a malloc ----------

  // What is cleared in advance is in use in the table of the calls that have returned.
  lemma WipedUsed(s: State, f: seq<Flag>, p: int)
    requires Whole(s, f) && FromCalls(s, f) && Flags(s) && Wiped(s, p)
    ensures 0 <= p < |f| && f[p] != 0
  {
    var g :| 0 <= g < |s.harts| && Freeing(s.harts[g]) && s.harts[g].b.s <= p < s.harts[g].i;
    assert PcOk(s.flags, s.harts[g]) && IsBlock(f, s.harts[g].b.s, s.harts[g].b.n);
  }

  // Page by page, that table is the one met, but for what is cleared in advance.
  lemma MetIs(s: State, h: nat, f: seq<Flag>, p: nat)
    requires Exclusive(s) && Flags(s) && Whole(s, f) && FromCalls(s, f) && h < |s.harts| && s.harts[h].Leaving?
    requires p < |f|
    ensures var g := Met(s.flags, s.harts[h].n, s.harts[h].result);
            p < |g| && (f[p] == 0 <==> g[p] == 0 && !Wiped(s, p))
  {
    assert PcOk(s.flags, s.harts[h]) && s.holder == Some(h) && EntryOk(s, f, p);
    if Wiped(s, p) { WipedUsed(s, f, p); }
  }

  lemma FitIs(s: State, h: nat, f: seq<Flag>, t: nat)
    requires Exclusive(s) && Flags(s) && Whole(s, f) && FromCalls(s, f) && h < |s.harts| && s.harts[h].Leaving?
    ensures Fit(f, t, s.harts[h].n) <==> LowerRun(s, s.harts[h].n, s.harts[h].result, t)
  {
    var n, g := s.harts[h].n, Met(s.flags, s.harts[h].n, s.harts[h].result);
    assert |g| == |f|;
    forall q: nat | t <= q < t + n && q < |f| ensures f[q] == 0 <==> g[q] == 0 && !Wiped(s, q) { MetIs(s, h, f, q); }
  }

  // A malloc is correct among the calls that have returned exactly when neither thing has gone wrong.
  lemma ReturnsRight(s: State, h: nat, f: seq<Flag>)
    requires Inv(s) && Searched(s) && Whole(s, f) && FromCalls(s, f) && h < |s.harts| && s.harts[h].Leaving?
    ensures var n, result := s.harts[h].n, s.harts[h].result;
            Correct(f, Entry(h, Op.Malloc(n), result)) <==> !Early(s, n, result) && !Missed(s, n, result)
  {
    var n, result := s.harts[h].n, s.harts[h].result;
    assert PcOk(s.flags, s.harts[h]) && s.holder == Some(h);
    forall t: nat | result.Some? ==> t < result.value ensures Fit(f, t, n) <==> OpensAt(s, n, result, t) {
      OpenedAt(s, h, f, t);
    }
    MissedIs(s, n, result);
    if result.Some? {
      FitIs(s, h, f, result.value);
      assert Fit(Met(s.flags, n, result), result.value, n);
    }
  }

  lemma MissedIs(s: State, n: nat, result: Option<nat>)
    ensures Missed(s, n, result) <==> exists t: nat :: (result.Some? ==> t < result.value) && OpensAt(s, n, result, t)
  {
    if Missed(s, n, result) {
      var t: nat, p: nat :| (result.Some? ==> t < result.value) && t <= p < t + n && p in s.behind
                            && LowerRun(s, n, result, t);
      assert OpensAt(s, n, result, t);
    }
  }

  ghost predicate OpensAt(s: State, n: nat, result: Option<nat>, t: nat) {
    LowerRun(s, n, result, t) && exists p: nat :: t <= p < t + n && p in s.behind
  }

  lemma OpenedAt(s: State, h: nat, f: seq<Flag>, t: nat)
    requires Inv(s) && Searched(s) && Whole(s, f) && FromCalls(s, f) && h < |s.harts| && s.harts[h].Leaving?
    requires s.harts[h].result.Some? ==> t < s.harts[h].result.value
    ensures Fit(f, t, s.harts[h].n) <==> OpensAt(s, s.harts[h].n, s.harts[h].result, t)
  {
    var pc, n, result := s.harts[h], s.harts[h].n, s.harts[h].result;
    FitIs(s, h, f, t);
    assert PcOk(s.flags, pc) && Locking(pc);
    if Fit(f, t, n) {
      var g, limit := Met(s.flags, n, result), Limit(pc, |s.flags|);
      assert Shut(s.flags, s.behind, t, n, limit);
      var p: nat :| t <= p < t + n && p < limit && Stop(s.flags, s.behind, p);
      assert g[p] == 0;
    }
  }

  lemma LeaveWhole(s: State, h: nat, f: seq<Flag>)
    requires Whole(s, f) && Enabled(s, Move(h)) && s.harts[h].Leaving?
    requires Correct(f, Entry(h, Op.Malloc(s.harts[h].n), s.harts[h].result))
    ensures Whole(Next(s, Move(h)), Effect(f, Entry(h, Op.Malloc(s.harts[h].n), s.harts[h].result)))
  {
    var pc, t := s.harts[h], Next(s, Move(h));
    if pc.result.Some? {
      var g := Mark(f, pc.result.value, pc.n);
      MarkAdds(f, pc.result.value, pc.n);
      forall b | b in t.held ensures IsBlock(g, b.s, b.n) { }
      assert !IsBlock(f, pc.result.value, pc.n);
    }
  }

  lemma LeaveSerial(s: State, h: nat, f0: seq<Flag>)
    requires Exclusive(s) && Flags(s) && SerialInv(s, f0) && Enabled(s, Move(h)) && s.harts[h].Leaving?
    requires Correct(Replay(f0, s.log), Entry(h, Op.Malloc(s.harts[h].n), s.harts[h].result))
    ensures SerialInv(Next(s, Move(h)), f0)
  {
    var f, pc, t := Replay(f0, s.log), s.harts[h], Next(s, Move(h));
    var e := Entry(h, Op.Malloc(pc.n), pc.result);
    assert PcOk(s.flags, pc) && s.holder == Some(h);
    ReplayExtend(f0, s.log, e);
    LeaveWhole(s, h, f);
    forall p: nat | p < |f| ensures EntryOk(t, Effect(f, e), p) {
      assert EntryOk(s, f, p);
      SameWiped(s, t, h, p);
      if Wiped(s, p) { WipedUsed(s, f, p); }
    }
  }

  // ---------- Every run ----------

  // Any step but a return of malloc that has gone wrong.
  lemma StepSerial(s: State, step: Step, f0: seq<Flag>)
    requires Inv(s) && Searched(s) && SerialInv(s, f0) && Enabled(s, step) && InTime(s, step)
    ensures SerialInv(Next(s, step), f0)
  {
    var f := Replay(f0, s.log);
    match step
    case CallMalloc(_, _) => CallsSerial(s, step, f);
    case CallFree(_, _) => CallsSerial(s, step, f);
    case Swap(h) => SwapSerial(s, h, f);
    case Move(h) => if Last(s.harts[h]) { LastSerial(s, h, f0); } else { MoveSerial(s, h, f0); }
  }

  lemma MoveSerial(s: State, h: nat, f0: seq<Flag>)
    requires Inv(s) && SerialInv(s, f0) && Enabled(s, Move(h)) && !Last(s.harts[h])
    ensures SerialInv(Next(s, Move(h)), f0)
  {
    var f := Replay(f0, s.log);
    MoveTable(s, h, f);
    MoveWhole(s, h, f);
    SameLog(s, Next(s, Move(h)), f0);
  }

  lemma MoveTable(s: State, h: nat, f: seq<Flag>)
    requires Exclusive(s) && Disjoint(s) && FromCalls(s, f) && Enabled(s, Move(h)) && !Last(s.harts[h])
    requires PcOk(s.flags, s.harts[h])
    ensures FromCalls(Next(s, Move(h)), f)
  {
    match s.harts[h]
    case Scan(_, _, _) => ScanSerial(s, h, f);
    case Setting(_, _, _) => SetSerial(s, h, f);
    case Clearing(_, _) => ReadSerial(s, h, f);
    case Wiping(_, _, _) => WipeOn(s, h, f);
    case _ =>
  }

  lemma MoveWhole(s: State, h: nat, f: seq<Flag>)
    requires Whole(s, f) && Enabled(s, Move(h)) && !Last(s.harts[h])
    ensures Whole(Next(s, Move(h)), f) && Next(s, Move(h)).log == s.log
  {
  }

  lemma SameLog(s: State, t: State, f0: seq<Flag>)
    requires AllCorrect(f0, s.log) && t.log == s.log && Whole(t, Replay(f0, s.log)) && FromCalls(t, Replay(f0, s.log))
    ensures SerialInv(t, f0)
  {
  }

  // The move of a hart at pc ends its call.
  predicate Last(pc: Pc) { pc.Leaving? || (pc.Wiping? && !pc.more) }

  lemma LastSerial(s: State, h: nat, f0: seq<Flag>)
    requires Inv(s) && Searched(s) && SerialInv(s, f0) && Enabled(s, Move(h)) && InTime(s, Move(h)) && Last(s.harts[h])
    ensures SerialInv(Next(s, Move(h)), f0)
  {
    assert PcOk(s.flags, s.harts[h]);
    if s.harts[h].Leaving? {
      ReturnsRight(s, h, Replay(f0, s.log));
      LeaveSerial(s, h, f0);
    } else {
      WipeLast(s, h, f0);
    }
  }

  // What is in the log stays there.
  lemma {:induction false} LogGrows(s: State, steps: seq<Step>)
    requires Legal(s, steps)
    ensures s.log <= After(s, steps).log
    decreases steps
  {
    if steps != [] { LogGrows(Next(s, steps[0]), steps[1..]); }
  }

  lemma WrongForGood(f: seq<Flag>, log: seq<Entry>, e: Entry, more: seq<Entry>)
    requires log + [e] <= more && !Correct(Replay(f, log), e)
    ensures !AllCorrect(f, more)
  {
    assert more[..|log|] == log && more[|log|] == e;
  }

  lemma {:induction false} RunSerial(s: State, steps: seq<Step>, f0: seq<Flag>)
    requires Inv(s) && Searched(s) && SerialInv(s, f0) && Legal(s, steps)
    ensures AllCorrect(f0, After(s, steps).log) <==> AllInTime(s, steps)
    decreases steps
  {
    if steps != [] {
      var t := Next(s, steps[0]);
      StepKeeps(s, steps[0]);
      StepSearches(s, steps[0]);
      if InTime(s, steps[0]) {
        StepSerial(s, steps[0], f0);
        RunSerial(t, steps[1..], f0);
      } else {
        var h := steps[0].h;
        ReturnsRight(s, h, Replay(f0, s.log));
        LogGrows(t, steps[1..]);
        WrongForGood(f0, s.log, Entry(h, Op.Malloc(s.harts[h].n), s.harts[h].result), After(t, steps[1..]).log);
      }
    }
  }

  // The calls act one after the other, in the order in which they have returned, exactly when no malloc has
  // returned with a page of a block half cleared, or after an entry cleared behind its scan opened a lower run.
  lemma {:induction false} SerialExactly(pages: nat, harts: nat, steps: seq<Step>)
    requires Legal(Initial(pages, harts), steps)
    ensures AllCorrect(seq(pages, _ => 0), After(Initial(pages, harts), steps).log)
            <==> AllInTime(Initial(pages, harts), steps)
  {
    RunSerial(Initial(pages, harts), steps, seq(pages, _ => 0));
  }

  // ---------- When free keeps out of the way of malloc ----------

  // A hart has cleared part of its block.
  predicate Half(pc: Pc) { Freeing(pc) && pc.b.s < pc.i }

  // No free writes while a malloc is inside, and no malloc gets in while a block is half cleared.
  predicate KeepsOut(s: State, step: Step) {
    match step
    case Move(h) => h < |s.harts| && s.harts[h].Wiping? ==> !s.locked
    case Swap(_) => s.locked || forall h :: 0 <= h < |s.harts| ==> !Half(s.harts[h])
    case _ => true
  }

  predicate AllKeepOut(s: State, steps: seq<Step>)
    requires Legal(s, steps)
    decreases steps
  {
    steps == [] || (KeepsOut(s, steps[0]) && AllKeepOut(Next(s, steps[0]), steps[1..]))
  }

  predicate Quiet(s: State) {
    s.locked ==> s.behind == {} && forall h :: 0 <= h < |s.harts| ==> !Half(s.harts[h])
  }

  lemma QuietStep(s: State, step: Step)
    requires Exclusive(s) && Flags(s) && Quiet(s) && Enabled(s, step) && KeepsOut(s, step)
    ensures Quiet(Next(s, step)) && InTime(s, step)
  {
    assert PcOk(s.flags, s.harts[step.h]);
  }

  lemma {:induction false} KeptOutInTime(s: State, steps: seq<Step>)
    requires Inv(s) && Quiet(s) && Legal(s, steps) && AllKeepOut(s, steps)
    ensures AllInTime(s, steps)
    decreases steps
  {
    if steps != [] {
      StepKeeps(s, steps[0]);
      QuietStep(s, steps[0]);
      KeptOutInTime(Next(s, steps[0]), steps[1..]);
    }
  }

  // If free keeps out of the way of malloc, nothing goes wrong.
  lemma {:induction false} SerialIfKeptOut(pages: nat, harts: nat, steps: seq<Step>)
    requires Legal(Initial(pages, harts), steps) && AllKeepOut(Initial(pages, harts), steps)
    ensures var log, f0 := After(Initial(pages, harts), steps).log, seq(pages, _ => 0);
            AllCorrect(f0, log) && Explained(f0, log)
  {
    SerialExactly(pages, harts, steps);
    KeptOutInTime(Initial(pages, harts), steps);
    var log := After(Initial(pages, harts), steps).log;
    assert SameCalls(log, log);
  }

  // ---------- A run that is not one after the other ----------

  lemma {:induction false} LegalConcat(s: State, xs: seq<Step>, ys: seq<Step>)
    requires Legal(s, xs) && Legal(After(s, xs), ys)
    ensures Legal(s, xs + ys) && After(s, xs + ys) == After(After(s, xs), ys)
    decreases xs
  {
    if xs == [] {
      assert xs + ys == ys;
    } else {
      LegalConcat(Next(s, xs[0]), xs[1..], ys);
      assert (xs + ys)[1..] == xs[1..] + ys;
    }
  }

  ghost predicate Reaches(s: State, t: State) { exists steps :: Legal(s, steps) && After(s, steps) == t }

  lemma ReachesNext(s: State, step: Step)
    requires Enabled(s, step)
    ensures Reaches(s, Next(s, step))
  {
    var t := Next(s, step);
    assert [step][1..] == [] && Legal(t, []) && After(t, []) == t;
    assert Legal(s, [step]) && After(s, [step]) == After(t, [step][1..]);
  }

  lemma ReachesOn(s: State, t: State, u: State)
    requires Reaches(s, t) && Reaches(t, u)
    ensures Reaches(s, u)
  {
    var xs :| Legal(s, xs) && After(s, xs) == t;
    var ys :| Legal(t, ys) && After(t, ys) == u;
    LegalConcat(s, xs, ys);
  }

  lemma Two(s: State, a: Step, b: Step)
    requires Enabled(s, a) && Enabled(Next(s, a), b)
    ensures Reaches(s, Next(Next(s, a), b))
  {
    ReachesNext(s, a);
    ReachesNext(Next(s, a), b);
    ReachesOn(s, Next(s, a), Next(Next(s, a), b));
  }

  lemma Three(s: State, a: Step, b: Step, c: Step)
    requires Enabled(s, a) && Enabled(Next(s, a), b) && Enabled(Next(Next(s, a), b), c)
    ensures Reaches(s, Next(Next(Next(s, a), b), c))
  {
    var u := Next(Next(s, a), b);
    Two(s, a, b);
    ReachesNext(u, c);
    ReachesOn(s, u, Next(u, c));
  }

  // A table of two pages with two harts: nobody inside, or hart 0 at pc.
  function Table(flags: seq<Flag>, held: set<Run>, log: seq<Entry>, behind: set<nat>): State {
    State(false, None, flags, [Out, Out], held, log, behind, false)
  }

  function Inside(flags: seq<Flag>, pc: Pc, held: set<Run>, log: seq<Entry>, behind: set<nat>): State {
    State(true, Some(0), flags, [pc, Out], held, log, behind, false)
  }

  // Hart 0 takes page p; hart 1 frees it.
  function Took(p: nat): Entry { Entry(0, Op.Malloc(1), Some(p)) }

  function Gave(p: nat): Entry { Entry(1, Op.Free(p, 1), None) }

  // Hart 0 enters malloc for one page and looks at page 0.
  lemma LooksFirst(flags: seq<Flag>, held: set<Run>, log: seq<Entry>, behind: set<nat>)
    requires |flags| == 2
    ensures Reaches(Table(flags, held, log, behind),
                    Inside(flags, if flags[0] == 0 then Scan(1, 0, 1) else Scan(1, 1, 0), held, log, {}))
  {
    var s, a, b, c := Table(flags, held, log, behind), CallMalloc(0, 1), Swap(0), Move(0);
    var t, u := Next(s, a), Next(Next(s, a), b);
    assert t.harts == [Spin(1), Out] && u.harts == [Scan(1, 0, 0), Out];
    Three(s, a, b, c);
    assert Next(u, c).harts == [if flags[0] == 0 then Scan(1, 0, 1) else Scan(1, 1, 0), Out];
  }

  lemma LooksSecond(flags: seq<Flag>, held: set<Run>, log: seq<Entry>, behind: set<nat>)
    requires |flags| == 2 && flags[1] == 0
    ensures Reaches(Inside(flags, Scan(1, 1, 0), held, log, behind), Inside(flags, Scan(1, 1, 1), held, log, behind))
  {
    var s := Inside(flags, Scan(1, 1, 0), held, log, behind);
    ReachesNext(s, Move(0));
    assert Next(s, Move(0)).harts == [Scan(1, 1, 1), Out];
  }

  // A scan that has found page p marks it, and hands it over.
  lemma Marks(flags: seq<Flag>, p: nat, held: set<Run>, log: seq<Entry>, behind: set<nat>)
    requires p < 2 && |flags| == 2 && flags[p] == 0
    ensures Reaches(Inside(flags, Scan(1, p, 1), held, log, behind),
                    Inside(flags[p := 2], Leaving(1, Some(p)), held, log, behind))
  {
    var s, m := Inside(flags, Scan(1, p, 1), held, log, behind), Move(0);
    var t, u := Next(s, m), Next(Next(s, m), m);
    assert t.harts == [Setting(1, p, 0), Out] && u.harts == [Setting(1, p, 1), Out];
    assert u.flags == flags[p := 1] && u.flags[p := 2] == flags[p := 2];
    Three(s, m, m, m);
    assert Next(u, m).harts == [Leaving(1, Some(p)), Out];
  }

  lemma Takes(flags: seq<Flag>, p: nat, held: set<Run>, log: seq<Entry>, behind: set<nat>)
    requires p < 2 && |flags| == 2 && flags[p] == 0
    ensures Reaches(Inside(flags, Scan(1, p, 1), held, log, behind),
                    Table(flags[p := 2], held + {Run(p, 1)}, log + [Took(p)], behind))
  {
    var s, t := Inside(flags, Scan(1, p, 1), held, log, behind),
                Inside(flags[p := 2], Leaving(1, Some(p)), held, log, behind);
    Marks(flags, p, held, log, behind);
    ReachesNext(t, Move(0));
    assert Next(t, Move(0)).harts == [Out, Out];
    ReachesOn(s, t, Next(t, Move(0)));
  }

  // Hart 1 frees page p while the scan of hart 0 is between the pages.
  lemma Frees(flags: seq<Flag>, p: nat, held: set<Run>, log: seq<Entry>, behind: set<nat>)
    requires p < 2 && |flags| == 2 && flags[p] == 2 && Run(p, 1) in held
    ensures Reaches(Inside(flags, Scan(1, 1, 0), held, log, behind),
                    Inside(flags[p := 0], Scan(1, 1, 0), held - {Run(p, 1)}, log + [Gave(p)],
                           if p == 0 then behind + {0} else behind))
  {
    var s, r := Inside(flags, Scan(1, 1, 0), held, log, behind), Run(p, 1);
    var a, b, c := CallFree(1, r), Move(1), Move(1);
    var t, u := Next(s, a), Next(Next(s, a), b);
    assert t.harts == [Scan(1, 1, 0), Clearing(r, p)] && u.harts == [Scan(1, 1, 0), Wiping(r, p, false)];
    Three(s, a, b, c);
    assert Next(u, c).harts == s.harts;
  }

  // Two calls of malloc take the table.
  lemma TakesBoth()
    ensures Reaches(Initial(2, 2), Table([2, 2], {Run(0, 1), Run(1, 1)}, [Took(0), Took(1)], {}))
  {
    var none: set<Run>, r0, r1 := {}, Run(0, 1), Run(1, 1);
    var s := Table([0, 0], none, [], {});
    assert Initial(2, 2).flags == [0, 0] && Initial(2, 2).harts == [Out, Out];
    var t, u := Inside([0, 0], Scan(1, 0, 1), none, [], {}), Table([2, 0], {r0}, [Took(0)], {});
    LooksFirst([0, 0], none, [], {});
    Takes([0, 0], 0, none, [], {});
    assert [0, 0][0 := 2] == u.flags && none + {r0} == u.held && [] + [Took(0)] == u.log;
    ReachesOn(s, t, u);
    var v, w := Inside([2, 0], Scan(1, 1, 0), {r0}, u.log, {}), Inside([2, 0], Scan(1, 1, 1), {r0}, u.log, {});
    LooksFirst([2, 0], {r0}, u.log, {});
    LooksSecond([2, 0], {r0}, u.log, {});
    Takes([2, 0], 1, {r0}, u.log, {});
    assert [2, 0][1 := 2] == [2, 2] && {r0} + {r1} == {r0, r1} && u.log + [Took(1)] == [Took(0), Took(1)];
    ReachesOn(s, u, v);
    ReachesOn(s, v, w);
    ReachesOn(s, w, Table([2, 2], {r0, r1}, [Took(0), Took(1)], {}));
  }

  // Hart 0 scans for a page and finds page 0 in use; hart 1 frees page 0 and then page 1; the scan goes
  // on and takes page 1.
  lemma Races(log: seq<Entry>)
    ensures Reaches(Table([2, 2], {Run(0, 1), Run(1, 1)}, log, {}),
                    Table([0, 2], {Run(1, 1)}, log + [Gave(0)] + [Gave(1)] + [Took(1)], {0}))
  {
    var none: set<Run>, r0, r1 := {}, Run(0, 1), Run(1, 1);
    var log1, log2 := log + [Gave(0)], log + [Gave(0)] + [Gave(1)];
    var s, t := Table([2, 2], {r0, r1}, log, {}), Inside([2, 2], Scan(1, 1, 0), {r0, r1}, log, {});
    var u, v := Inside([0, 2], Scan(1, 1, 0), {r1}, log1, {0}), Inside([0, 0], Scan(1, 1, 0), none, log2, {0});
    LooksFirst([2, 2], {r0, r1}, log, {});
    Frees([2, 2], 0, {r0, r1}, log, {});
    assert [2, 2][0 := 0] == [0, 2] && {r0, r1} - {r0} == {r1} && {} + {0} == {0};
    Frees([0, 2], 1, {r1}, log1, {0});
    assert [0, 2][1 := 0] == [0, 0] && {r1} - {r1} == none;
    ReachesOn(s, t, u);
    ReachesOn(s, u, v);
    RacesOn(log2);
    ReachesOn(s, v, Table([0, 2], {r1}, log2 + [Took(1)], {0}));
  }

  lemma RacesOn(log: seq<Entry>)
    ensures Reaches(Inside([0, 0], Scan(1, 1, 0), {}, log, {0}), Table([0, 2], {Run(1, 1)}, log + [Took(1)], {0}))
  {
    var none: set<Run> := {};
    LooksSecond([0, 0], none, log, {0});
    Takes([0, 0], 1, none, log, {0});
    assert [0, 0][1 := 2] == [0, 2] && none + {Run(1, 1)} == {Run(1, 1)};
    ReachesOn(Inside([0, 0], Scan(1, 1, 0), none, log, {0}), Inside([0, 0], Scan(1, 1, 1), none, log, {0}),
              Table([0, 2], {Run(1, 1)}, log + [Took(1)], {0}));
  }

  // ---------- No order explains it ----------

  lemma TookWrong(f: seq<Flag>)
    requires |f| == 2 && (f[0] == 0 || f[1] != 0)
    ensures !Correct(f, Took(1))
  {
    assert f[0] == 0 ==> Fit(f, 0, 1);
  }

  lemma GaveWrong(f: seq<Flag>, p: nat)
    requires p < 2 && |f| == 2 && f[p] == 0
    ensures !Correct(f, Gave(p))
  {
  }

  lemma Effects()
    ensures Effect([0, 0], Took(0)) == [2, 0] && Effect([2, 0], Took(1)) == [2, 2]
    ensures Effect([2, 0], Gave(0)) == [0, 0] && Effect([2, 2], Gave(0)) == [0, 2] && Effect([0, 2], Gave(1)) == [0, 0]
  {
  }

  lemma Stuck22()
    ensures !Mergeable([2, 2], [Took(1)], [Gave(0), Gave(1)])
  {
    Effects();
    TookWrong([2, 2]);
    TookWrong([0, 2]);
    TookWrong([0, 0]);
    assert [Gave(0), Gave(1)][1..] == [Gave(1)] && [Gave(1)][1..] == [];
    assert !Mergeable([0, 0], [Took(1)], []);
    assert !Mergeable([0, 2], [Took(1)], [Gave(1)]);
  }

  lemma Stuck00()
    ensures !Mergeable([0, 0], [Took(1), Took(1)], [Gave(1)])
  {
    TookWrong([0, 0]);
    GaveWrong([0, 0], 1);
  }

  lemma NotMergeable()
    ensures !Mergeable([0, 0], [Took(0), Took(1), Took(1)], [Gave(0), Gave(1)])
  {
    Effects();
    Stuck22();
    Stuck00();
    GaveWrong([0, 0], 0);
    assert [Took(0), Took(1), Took(1)][1..] == [Took(1), Took(1)] && [Took(1), Took(1)][1..] == [Took(1)];
    assert [Gave(0), Gave(1)][1..] == [Gave(1)];
    assert !Mergeable([2, 0], [Took(1), Took(1)], [Gave(0), Gave(1)]);
  }

  function RaceLog(): seq<Entry> { [Took(0), Took(1), Gave(0), Gave(1), Took(1)] }

  lemma RaceCalls()
    ensures OfHart(RaceLog(), 0) == [Took(0), Took(1), Took(1)] && OfHart(RaceLog(), 1) == [Gave(0), Gave(1)]
  {
    var log := RaceLog();
    assert log[1..] == [Took(1), Gave(0), Gave(1), Took(1)] && log[1..][1..] == [Gave(0), Gave(1), Took(1)];
    assert log[1..][1..][1..] == [Gave(1), Took(1)] && log[1..][1..][1..][1..] == [Took(1)];
    assert [Took(1)][1..] == [];
  }

  // Calls made while free takes no lock need not act one after the other: from an empty table of two
  // pages two harts can come to five calls that no order explains in which each hart keeps its own.
  lemma NotSerial()
    ensures Reaches(Initial(2, 2), Table([0, 2], {Run(1, 1)}, RaceLog(), {0}))
    ensures !Explained([0, 0], RaceLog())
  {
    TakesBoth();
    Races([Took(0), Took(1)]);
    assert [Took(0), Took(1)] + [Gave(0)] + [Gave(1)] + [Took(1)] == RaceLog();
    ReachesOn(Initial(2, 2), Table([2, 2], {Run(0, 1), Run(1, 1)}, [Took(0), Took(1)], {}),
              Table([0, 2], {Run(1, 1)}, RaceLog(), {0}));
    RaceCalls();
    NotMergeable();
    NoOrder([0, 0], RaceLog());
  }
}
