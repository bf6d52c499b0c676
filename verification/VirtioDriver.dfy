// The descriptor bookkeeping of virtio.c: allocation of descriptors, chains, the rings.

module VirtioDriver {
  import opened Options

  const NUM := 8
  const WRAP := 0x1_0000
  const F_NEXT := 1
  const F_WRITE := 2
  const REQUEST_SIZE := 16
  const BLOCK_SIZE := 1024
  const PENDING := 0xff

  type u16 = x: int | 0 <= x < WRAP

  // What a descriptor may point to: a command header, a buffer's data, a status byte.
  datatype Address = Null | HeaderAt(i: nat) | DataOf(buf: nat) | StatusAt(i: nat)

  datatype Desc = Desc(addr: Address, len: nat, flags: nat, next: nat)

  const ZeroDesc := Desc(Null, 0, 0, 0)

  // struct virtio_blk_req.
  const TYPE_IN := 0
  const TYPE_OUT := 1

  datatype Header = Header(kind: nat, sector: nat)

  datatype Info = Info(buf: Option<nat>, status: nat)

  // The driver's side: descriptor table, free map, command headers, requests in flight, the
  // available ring, and how far it has looked into the used ring.
  datatype Driver = Driver(free: seq<bool>, desc: seq<Desc>, ops: seq<Header>, info: seq<Info>,
                           availRing: seq<nat>, availIdx: u16, usedIdx: u16)

  // ---------- The free map ----------

  // The lowest free descriptor; |f| when there is none.
  function LowestFree(f: seq<bool>): (i: nat)
    ensures i <= |f| && (i < |f| ==> f[i]) && (forall j :: 0 <= j < i ==> !f[j])
  {
    if f == [] || f[0] then 0 else 1 + LowestFree(f[1..])
  }

  lemma LowestFreeIs(f: seq<bool>, i: nat)
    requires i <= |f| && (i < |f| ==> f[i]) && (forall j :: 0 <= j < i ==> !f[j])
    ensures LowestFree(f) == i
  {
  }

  function FreeCount(f: seq<bool>): nat {
    if f == [] then 0 else (if f[0] then 1 else 0) + FreeCount(f[1..])
  }

  lemma {:induction false} CountUpdate(f: seq<bool>, i: nat, b: bool)
    requires i < |f|
    ensures FreeCount(f[i := b]) == FreeCount(f) - (if f[i] then 1 else 0) + (if b then 1 else 0)
  {
    if i == 0 {
      assert f[i := b][1..] == f[1..];
    } else {
      CountUpdate(f[1..], i - 1, b);
      assert f[i := b][1..] == f[1..][i - 1 := b];
    }
  }

  lemma {:induction false} NoneFree(f: seq<bool>)
    ensures LowestFree(f) == |f| <==> FreeCount(f) == 0
  {
    if f != [] { NoneFree(f[1..]); }
  }

  function TakeLowest(f: seq<bool>): seq<bool> {
    var i := LowestFree(f);
    if i < |f| then f[i := false] else f
  }

  // Free descriptors carry nothing.
  ghost predicate FreeIsZero(f: seq<bool>, d: seq<Desc>) {
    |f| == |d| && forall i :: 0 <= i < |f| && f[i] ==> d[i] == ZeroDesc
  }

  // ---------- Chains ----------

  // xs are the descriptors of a chain from its head on: all but the last continue, none repeats.
  ghost predicate IsChain(d: seq<Desc>, xs: seq<nat>) {
    xs != []
    && (forall k :: 0 <= k < |xs| ==> xs[k] < |d|)
    && (forall k :: 0 <= k < |xs| ==> (d[xs[k]].flags % 2 == F_NEXT <==> k + 1 < |xs|))
    && (forall k :: 0 <= k < |xs| - 1 ==> d[xs[k]].next == xs[k + 1])
    && (forall j, k :: 0 <= j < k < |xs| ==> xs[j] != xs[k])
  }

  function FreeAll(f: seq<bool>, xs: seq<nat>): (r: seq<bool>)
    requires forall k :: 0 <= k < |xs| ==> xs[k] < |f|
    ensures |r| == |f| && forall i :: 0 <= i < |f| ==> r[i] == (f[i] || i in xs)
  {
    seq(|f|, i requires 0 <= i < |f| => f[i] || i in xs)
  }

  function ZeroAll(d: seq<Desc>, xs: seq<nat>): (r: seq<Desc>)
    requires forall k :: 0 <= k < |xs| ==> xs[k] < |d|
    ensures |r| == |d| && forall i :: 0 <= i < |d| ==> r[i] == if i in xs then ZeroDesc else d[i]
  {
    seq(|d|, i requires 0 <= i < |d| => if i in xs then ZeroDesc else d[i])
  }

  // Freeing the chain up to descriptor k, and then that one.
  lemma PartOfChain(f: seq<bool>, d: seq<Desc>, xs: seq<nat>, k: nat)
    requires |f| == |d| && IsChain(d, xs) && k < |xs| && forall j :: 0 <= j < |xs| ==> !f[xs[j]]
    ensures var g, e := FreeAll(f, xs[..k]), ZeroAll(d, xs[..k]);
            e[xs[k]] == d[xs[k]] && !g[xs[k]]
            && g[xs[k] := true] == FreeAll(f, xs[..k + 1]) && e[xs[k] := ZeroDesc] == ZeroAll(d, xs[..k + 1])
    ensures k + 1 == |xs| ==> xs[..k + 1] == xs
  {
  }

  // ---------- A request's chain ----------

  // The three descriptors of a request: header, data, status (VIRTIO 1.1, section 5.2.6).
  function Format(d: seq<Desc>, i: nat, j: nat, k: nat, buf: nat, write: bool): seq<Desc>
    requires i < |d| && j < |d| && k < |d|
  {
    d[i := Desc(HeaderAt(i), REQUEST_SIZE, F_NEXT, j)]
     [j := Desc(DataOf(buf), BLOCK_SIZE, (if write then 0 else F_WRITE) + F_NEXT, k)]
     [k := Desc(StatusAt(i), 1, F_WRITE, 0)]
  }

  lemma FormatIsChain(d: seq<Desc>, i: nat, j: nat, k: nat, buf: nat, write: bool)
    requires i < |d| && j < |d| && k < |d| && i != j && j != k && i != k
    ensures IsChain(Format(d, i, j, k, buf, write), [i, j, k])
  {
  }

  // ---------- The functions of virtio.c ----------

  class VirtioDisk {
    const free: array<bool>
    const desc: array<Desc>

    ghost predicate Valid() {
      free.Length == NUM && desc.Length == NUM
    }

    // All descriptors free and the table zeroed, as virtio_disk_init leaves them.
    constructor ()
      ensures Valid() && fresh(free) && fresh(desc)
      ensures free.Length == 8 && (forall i :: 0 <= i < 8 ==> free[i]) && FreeIsZero(free[..], desc[..])
    {
      free := new bool[NUM](_ => true);
      desc := new Desc[NUM](_ => ZeroDesc);
    }

    method AllocDesc() returns (r: int)
      requires Valid()
      modifies free
      ensures var f := old(free[..]);
              free[..] == TakeLowest(f) && r == if LowestFree(f) < NUM then LowestFree(f) else -1
    {
      var i := 0;
      while i < NUM
        invariant 0 <= i <= NUM && free[..] == old(free[..])
        invariant forall j :: 0 <= j < i ==> !free[j]
      {
        if free[i] {
          LowestFreeIs(free[..], i);
          free[i] := false;
          return i;
        }
        i := i + 1;
      }
      LowestFreeIs(free[..], NUM);
      return -1;
    }

    // The result tells whether one of the two panics was reached.
    method FreeDesc(i: nat) returns (panic: bool)
      requires Valid()
      modifies free, desc
      ensures panic <==> i >= NUM || old(free[i])
      ensures panic ==> free[..] == old(free[..]) && desc[..] == old(desc[..])
      ensures !panic ==> free[..] == old(free[..])[i := true] && desc[..] == old(desc[..])[i := ZeroDesc]
    {
      if i >= NUM { return true; }
      if free[i] { return true; }
      desc[i] := ZeroDesc;
      free[i] := true;
      return false;
    }

    // On a chain of allocated descriptors no panic is reached, and exactly the chain is freed.
    method FreeChain(head: nat, ghost xs: seq<nat>) returns (panic: bool)
      requires Valid() && IsChain(desc[..], xs) && xs[0] == head
      requires forall k :: 0 <= k < |xs| ==> !free[xs[k]]
      modifies free, desc
      ensures !panic
      ensures free[..] == FreeAll(old(free[..]), xs) && desc[..] == ZeroAll(old(desc[..]), xs)
    {
      ghost var f, d, k := free[..], desc[..], 0;
      var i := head;
      while true
        invariant k < |xs| && i == xs[k]
        invariant free[..] == FreeAll(f, xs[..k]) && desc[..] == ZeroAll(d, xs[..k])
        decreases |xs| - k
      {
        PartOfChain(f, d, xs, k);
        var flag := desc[i].flags;
        var next := desc[i].next;
        panic := FreeDesc(i);
        if panic { return; }
        if flag % 2 == F_NEXT {
          i := next;
        } else {
          return;
        }
        k := k + 1;
      }
    }

    // Three distinct lowest free descriptors, or the tables as they were.
    method Alloc3Desc(idx: array<int>) returns (r: int)
      requires Valid() && idx.Length == 3
      requires FreeIsZero(free[..], desc[..])
      modifies free, desc, idx
      ensures desc[..] == old(desc[..])
      ensures r == 0 || r == -1
      ensures r == 0 <==> FreeCount(old(free[..])) >= 3
      ensures r == 0 ==> free[..] == TakeN(old(free[..]), 3)
      ensures r == 0 ==> forall k :: 0 <= k < 3 ==> idx[k] == Picks(old(free[..]), 3)[k]
      ensures r == -1 ==> free[..] == old(free[..])
    {
      ghost var f, d, taken := free[..], desc[..], [];
      var i := 0;
      while i < 3
        invariant 0 <= i <= 3 && desc[..] == d && Taking(f, d, free[..], taken, i)
        invariant forall k :: 0 <= k < i ==> idx[k] == taken[k]
      {
        TakingNext(f, d, free[..], taken, i);
        ghost var pick := LowestFree(free[..]);
        var x := AllocDesc();
        idx[i] := x;
        if x < 0 {
          Rollback(idx, i, f, taken);
          return -1;
        }
        taken := taken + [pick];
        i := i + 1;
      }
      return 0;
    }

    // The inner loop of alloc3_desc gives back what was taken.
    method Rollback(idx: array<int>, i: nat, ghost f: seq<bool>, ghost taken: seq<nat>)
      requires Valid() && i <= idx.Length && |taken| == i && forall k :: 0 <= k < i ==> idx[k] == taken[k]
      requires Holds(f, desc[..], free[..], taken)
      modifies free, desc
      ensures free[..] == f && desc[..] == old(desc[..])
    {
      ghost var d := desc[..];
      var j := 0;
      while j < i
        invariant 0 <= j <= i && desc[..] == d && Holds(f, d, free[..], taken[j..])
      {
        ghost var g, left := free[..], taken[j..];
        assert left[0] == taken[j] == idx[j];
        var panic := FreeDesc(idx[j]);
        HoldsLess(f, d, g, left);
        assert desc[..] == d;
        assert left[1..] == taken[j + 1..];
        j := j + 1;
      }
      HoldsNone(f, d, free[..]);
    }
  }

  // g is the free map f without the descriptors taken, which are zeroed and different.
  ghost predicate Holds(f: seq<bool>, d: seq<Desc>, g: seq<bool>, taken: seq<nat>) {
    |f| == |g| == |d| && FreeIsZero(f, d)
    && (forall k :: 0 <= k < |taken| ==> taken[k] < |f| && f[taken[k]] && !g[taken[k]])
    && (forall j, k :: 0 <= j < k < |taken| ==> taken[j] != taken[k])
    && (forall x :: 0 <= x < |f| ==> f[x] == (g[x] || x in taken))
  }

  // The same after i steps of allocating the lowest free descriptor.
  ghost predicate Taking(f: seq<bool>, d: seq<Desc>, g: seq<bool>, taken: seq<nat>, i: nat) {
    Holds(f, d, g, taken) && taken == Picks(f, i) && g == TakeN(f, i) && FreeCount(g) == FreeCount(f) - i
  }

  lemma TakingNext(f: seq<bool>, d: seq<Desc>, g: seq<bool>, taken: seq<nat>, i: nat)
    requires Taking(f, d, g, taken, i)
    ensures LowestFree(g) == |g| ==> FreeCount(f) == i && TakeLowest(g) == g
    ensures LowestFree(g) < |g| ==> Taking(f, d, TakeLowest(g), taken + [LowestFree(g)], i + 1)
  {
    TakeCounts(g);
    if LowestFree(g) < |g| { HoldsNext(f, d, g, taken); }
  }

  lemma HoldsNext(f: seq<bool>, d: seq<Desc>, g: seq<bool>, taken: seq<nat>)
    requires Holds(f, d, g, taken) && LowestFree(g) < |g|
    ensures Holds(f, d, TakeLowest(g), taken + [LowestFree(g)])
  {
  }

  lemma HoldsLess(f: seq<bool>, d: seq<Desc>, g: seq<bool>, taken: seq<nat>)
    requires Holds(f, d, g, taken) && taken != []
    ensures Holds(f, d, g[taken[0] := true], taken[1..])
    ensures d[taken[0] := ZeroDesc] == d && taken[0] < |g| && !g[taken[0]]
  {
  }

  lemma HoldsNone(f: seq<bool>, d: seq<Desc>, g: seq<bool>)
    requires Holds(f, d, g, [])
    ensures g == f
  {
  }

  // The free map after taking the lowest free descriptor n times.
  function TakeN(f: seq<bool>, n: nat): (r: seq<bool>)
    ensures |r| == |f|
    decreases n, f
  {
    if n == 0 then f else TakeLowest(TakeN(f, n - 1))
  }

  // The descriptors taken, in order.
  function Picks(f: seq<bool>, n: nat): (r: seq<nat>)
    ensures |r| == n
    decreases n, f
  {
    if n == 0 then [] else Picks(f, n - 1) + [LowestFree(TakeN(f, n - 1))]
  }

  // They were free, and each is lower than any free descriptor that stays.
  lemma {:induction false} PicksLowest(f: seq<bool>, n: nat)
    requires FreeCount(f) >= n
    ensures FreeCount(TakeN(f, n)) == FreeCount(f) - n
    ensures forall k :: 0 <= k < n ==> Picks(f, n)[k] < |f| && f[Picks(f, n)[k]]
    ensures forall j, k :: 0 <= j < k < n ==> Picks(f, n)[j] < Picks(f, n)[k]
    ensures forall x :: 0 <= x < |f| ==> (TakeN(f, n)[x] <==> f[x] && x !in Picks(f, n))
    ensures forall k, x :: 0 <= k < n && 0 <= x < |f| && TakeN(f, n)[x] ==> Picks(f, n)[k] < x
    decreases n
  {
    if n > 0 {
      PicksLowest(f, n - 1);
      TakeCounts(TakeN(f, n - 1));
    }
  }

  lemma TakeCounts(f: seq<bool>)
    ensures LowestFree(f) < |f| ==>
              FreeCount(TakeLowest(f)) == FreeCount(f) - 1 && LowestFree(f) < LowestFree(TakeLowest(f))
    ensures LowestFree(f) == |f| <==> FreeCount(f) == 0
  {
  }
}
