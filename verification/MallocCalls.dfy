// Calls of malloc and free made one after the other, and what it means that some calls act as if they
// had been.

module MallocCalls {
  import opened PageAllocator
  import opened Options

  // A page stands for its address. Free names the block it is called on; FreeOther is a call with a
  // pointer that is no page's address but below some page.
  datatype Op = Malloc(n: nat) | Free(s: nat, n: nat) | FreeOther

  // A call that has returned: which hart made it, and the page malloc gave.
  datatype Entry = Entry(hart: nat, op: Op, result: Option<nat>)

  // ---------- The calls one after the other ----------

  function Effect(f: seq<Flag>, e: Entry): (r: seq<Flag>)
    ensures |r| == |f|
  {
    match e.op
    case Malloc(n) => if e.result.Some? && n > 0 && e.result.value + n <= |f| then Mark(f, e.result.value, n) else f
    case Free(s, n) => if s + n <= |f| then Clear(f, s, n) else f
    case FreeOther => f
  }

  function Replay(f: seq<Flag>, log: seq<Entry>): (r: seq<Flag>)
    ensures |r| == |f|
  {
    if log == [] then f else Effect(Replay(f, log[..|log| - 1]), log[|log| - 1])
  }

  // What a single caller of malloc and free is promised.
  ghost predicate Correct(f: seq<Flag>, e: Entry) {
    match e.op
    case Malloc(n) =>
      n > 0 && (match e.result
                case Some(s) => Fit(f, s, n) && forall t: nat :: t < s ==> !Fit(f, t, n)
                case None => forall t: nat :: !Fit(f, t, n))
    case Free(s, n) => IsBlock(f, s, n)
    case FreeOther => false
  }

  ghost predicate AllCorrect(f: seq<Flag>, log: seq<Entry>) {
    forall i :: 0 <= i < |log| ==> Correct(Replay(f, log[..i]), log[i])
  }

  // A scan for which nothing fits ends, in the null pointer, only behind a last page in use.
  predicate Ends(f: seq<Flag>, e: Entry) { e.op.Malloc? && e.result.None? && f != [] ==> f[|f| - 1] != 0 }

  ghost predicate AllEnd(f: seq<Flag>, log: seq<Entry>) {
    forall i :: 0 <= i < |log| ==> Ends(Replay(f, log[..i]), log[i])
  }

  function PartSet(f: seq<Flag>, s: nat, k: nat): (r: seq<Flag>)
    requires s + k <= |f|
    ensures |r| == |f| && forall i :: 0 <= i < |f| ==> r[i] == if Within(i, s, k) then 1 else f[i]
  {
    seq(|f|, i requires 0 <= i < |f| => if Within(i, s, k) then 1 else f[i])
  }

  ghost predicate NothingFits(f: seq<Flag>, n: nat) { forall t: nat :: !Fit(f, t, n) }

  lemma ReplayExtend(f: seq<Flag>, log: seq<Entry>, e: Entry)
    requires AllCorrect(f, log) && Correct(Replay(f, log), e)
    ensures Replay(f, log + [e]) == Effect(Replay(f, log), e)
    ensures AllCorrect(f, log + [e])
  {
    assert (log + [e])[..|log|] == log;
    forall i | 0 <= i < |log| + 1 ensures Correct(Replay(f, (log + [e])[..i]), (log + [e])[i]) {
      if i < |log| { assert (log + [e])[..i] == log[..i]; }
    }
  }

  lemma EndsExtend(f: seq<Flag>, log: seq<Entry>, e: Entry)
    requires AllEnd(f, log) && Ends(Replay(f, log), e)
    ensures AllEnd(f, log + [e])
  {
    assert (log + [e])[..|log|] == log;
    forall i | 0 <= i < |log| ensures Ends(Replay(f, (log + [e])[..i]), (log + [e])[i]) {
      assert (log + [e])[..i] == log[..i];
    }
  }

  // ---------- In some order ----------

  // The calls of one hart, in the order in which it made them.
  function OfHart(log: seq<Entry>, h: nat): seq<Entry> {
    if log == [] then []
    else if log[0].hart == h then [log[0]] + OfHart(log[1..], h)
    else OfHart(log[1..], h)
  }

  // Every hart makes the same calls with the same results in the same order.
  ghost predicate SameCalls(a: seq<Entry>, b: seq<Entry>) { forall h: nat :: OfHart(a, h) == OfHart(b, h) }

  // Some order of the calls, in which each hart keeps its own, gives every call its result.
  ghost predicate Explained(f: seq<Flag>, log: seq<Entry>) {
    exists order :: SameCalls(order, log) && AllCorrect(f, order)
  }

  lemma {:induction false} ReplayFront(f: seq<Flag>, e: Entry, log: seq<Entry>)
    ensures Replay(f, [e] + log) == Replay(Effect(f, e), log)
    decreases |log|
  {
    if log == [] {
      assert [e] + log == [e] && [e][..0] == [];
    } else {
      var front, last := log[..|log| - 1], log[|log| - 1];
      assert ([e] + log)[..|log|] == [e] + front;
      ReplayFront(f, e, front);
    }
  }

  lemma AllCorrectFront(f: seq<Flag>, log: seq<Entry>)
    requires AllCorrect(f, log) && log != []
    ensures Correct(f, log[0]) && AllCorrect(Effect(f, log[0]), log[1..])
  {
    assert log[..0] == [] && Correct(Replay(f, log[..0]), log[0]);
    forall i | 0 <= i < |log| - 1 ensures Correct(Replay(Effect(f, log[0]), log[1..][..i]), log[1..][i]) {
      assert log[..i + 1] == [log[0]] + log[1..][..i];
      ReplayFront(f, log[0], log[1..][..i]);
      assert Correct(Replay(f, log[..i + 1]), log[i + 1]);
    }
  }

  // Whether calls xs of one hart and ys of another can be brought into such an order.
  ghost predicate Mergeable(f: seq<Flag>, xs: seq<Entry>, ys: seq<Entry>)
    decreases |xs| + |ys|
  {
    (xs == [] && ys == [])
    || (xs != [] && Correct(f, xs[0]) && Mergeable(Effect(f, xs[0]), xs[1..], ys))
    || (ys != [] && Correct(f, ys[0]) && Mergeable(Effect(f, ys[0]), xs, ys[1..]))
  }

  lemma {:induction false} NoStranger(log: seq<Entry>, e: Entry)
    requires e in log
    ensures OfHart(log, e.hart) != []
  {
    if log[0].hart != e.hart { NoStranger(log[1..], e); }
  }

  lemma {:induction false} OrderMerges(f: seq<Flag>, order: seq<Entry>)
    requires AllCorrect(f, order) && forall e :: e in order ==> e.hart < 2
    ensures Mergeable(f, OfHart(order, 0), OfHart(order, 1))
    decreases |order|
  {
    if order != [] {
      AllCorrectFront(f, order);
      OrderMerges(Effect(f, order[0]), order[1..]);
    }
  }

  // The calls of two harts are explained by no order if theirs cannot be merged.
  lemma NoOrder(f: seq<Flag>, log: seq<Entry>)
    requires (forall e :: e in log ==> e.hart < 2) && !Mergeable(f, OfHart(log, 0), OfHart(log, 1))
    ensures !Explained(f, log)
  {
    forall order: seq<Entry> | SameCalls(order, log) ensures !AllCorrect(f, order) {
      if AllCorrect(f, order) {
        forall e | e in order ensures e.hart < 2 {
          NoStranger(order, e);
          OnlyTheirs(log, e.hart);
        }
        OrderMerges(f, order);
      }
    }
  }

  lemma {:induction false} OnlyTheirs(log: seq<Entry>, h: nat)
    requires forall e :: e in log ==> e.hart < 2
    ensures h >= 2 ==> OfHart(log, h) == []
  {
    if log != [] { OnlyTheirs(log[1..], h); }
  }
}
