// mem.c: pages handed out first fit from a table of flags. A block of n pages is flagged 1 ... 1 2.

module PageAllocator {
  const PAGE_SIZE := 4096
  const ENTRY_SIZE := 16
  const U31 := 0x8000_0000
  const U32 := 0x1_0000_0000
  const U64 := 0x1_0000_0000_0000_0000

  type u32 = x: int | 0 <= x < U32
  type u64 = x: int | 0 <= x < U64
  type Flag = x: int | 0 <= x <= 2
  type Bytes = seq<bv8>

  function ZeroPage(): (r: Bytes)
    ensures |r| == 4096 && forall k :: 0 <= k < 4096 ==> r[k] == 0
  {
    seq(PAGE_SIZE, _ => 0)
  }

  // ---------- Where the pages lie ----------

  // In 32 bits: a heap too small for one entry and one page would get 2^32 - 1 pages.
  function NumPages(heapSize: u32): u32 { (heapSize / (PAGE_SIZE + ENTRY_SIZE) + U32 - 1) % U32 }

  function AllocStart(heapStart: nat, pages: nat): nat {
    (heapStart + pages * ENTRY_SIZE + PAGE_SIZE - 1) / PAGE_SIZE * PAGE_SIZE
  }

  // The product is taken in 32 bits.
  function Offset(i: nat): nat { i * PAGE_SIZE % U32 }

  function PageAt(heapStart: nat, pages: nat, i: nat): nat { AllocStart(heapStart, pages) + Offset(i) }

  // Pages are aligned and apart from the table, and the one page left out for the alignment keeps them inside
  // the heap: exactly when the heap has room for an entry and a page.
  lemma HeapBounds(heapStart: nat, heapSize: u32)
    ensures var n := NumPages(heapSize);
            heapSize >= PAGE_SIZE + ENTRY_SIZE <==> AllocStart(heapStart, n) + Offset(n) <= heapStart + heapSize
    ensures var n := NumPages(heapSize);
            && heapStart + n * ENTRY_SIZE <= AllocStart(heapStart, n)
            && (forall i: nat :: PageAt(heapStart, n, i) % PAGE_SIZE == 0)
  {
    forall i: nat ensures PageAt(heapStart, NumPages(heapSize), i) % PAGE_SIZE == 0 { Aligned(i); }
  }

  lemma Aligned(i: nat)
    ensures Offset(i) % PAGE_SIZE == 0
  {
    assert U32 == 0x10_0000 * PAGE_SIZE;
    assert Offset(i) == PAGE_SIZE * (i % 0x10_0000);
  }

  // One page is left out for the alignment and no more: two pages and their entries would not fit in addition.
  // The pages start at the first boundary behind the table.
  lemma HeapUsed(heapStart: nat, heapSize: u32)
    requires heapSize >= PAGE_SIZE + ENTRY_SIZE
    ensures var n := NumPages(heapSize);
            (n + 1) * 4112 <= heapSize < (n + 2) * 4112
            && AllocStart(heapStart, n) < heapStart + n * ENTRY_SIZE + PAGE_SIZE
  {
  }

  ghost predicate PagesApart(heapStart: nat, n: nat) {
    forall i: nat, j: nat :: i < j < n ==> PageAt(heapStart, n, i) + PAGE_SIZE <= PageAt(heapStart, n, j)
  }

  // And exactly then they are apart from each other: in a smaller heap page 2^20 is page 0 again.
  lemma HeapApart(heapStart: nat, heapSize: u32)
    ensures heapSize >= PAGE_SIZE + ENTRY_SIZE <==> PagesApart(heapStart, NumPages(heapSize))
    ensures heapSize < PAGE_SIZE + ENTRY_SIZE ==>
              var n := NumPages(heapSize); n > 0x10_0000 && PageAt(heapStart, n, 0x10_0000) == PageAt(heapStart, n, 0)
  {
    var n := NumPages(heapSize);
    if heapSize >= PAGE_SIZE + ENTRY_SIZE {
      assert forall i: nat :: i < n ==> Offset(i) == i * PAGE_SIZE;
    } else {
      assert n == U32 - 1 && Offset(0x10_0000) == 0 && Offset(0) == 0;
      assert PageAt(heapStart, n, 0x10_0000) == PageAt(heapStart, n, 0);
    }
  }

  // ---------- Blocks ----------

  predicate Fit(f: seq<Flag>, s: nat, n: nat) {
    s + n <= |f| && forall k :: s <= k < s + n ==> f[k] == 0
  }

  // Flags as the allocator leaves them: a 1 is followed by the rest of its block.
  predicate WellFormed(f: seq<Flag>) {
    forall k :: 0 <= k < |f| && f[k] == 1 ==> k + 1 < |f| && f[k + 1] != 0
  }

  predicate IsBlock(f: seq<Flag>, s: nat, n: nat) {
    n > 0 && s + n <= |f|
    && (forall k :: s <= k < s + n - 1 ==> f[k] == 1)
    && f[s + n - 1] == 2
    && (s == 0 || f[s - 1] != 1)
  }

  // A page of a block that is not its last.
  predicate Inner(f: seq<Flag>, k: int) { 0 <= k < |f| && f[k] == 1 }

  predicate Used(f: seq<Flag>, k: int) { 0 <= k < |f| && f[k] != 0 }

  predicate Within(k: int, s: nat, n: nat) { s <= k < s + n }

  function Mark(f: seq<Flag>, s: nat, n: nat): (r: seq<Flag>)
    requires 0 < n && s + n <= |f|
    ensures |r| == |f|
    ensures forall k :: 0 <= k < |f| ==> r[k] == if !Within(k, s, n) then f[k] else if k == s + n - 1 then 2 else 1
  {
    seq(|f|, k requires 0 <= k < |f| => if !Within(k, s, n) then f[k] else if k == s + n - 1 then 2 else 1)
  }

  function Clear(f: seq<Flag>, s: nat, n: nat): (r: seq<Flag>)
    requires s + n <= |f|
    ensures |r| == |f| && forall k :: 0 <= k < |f| ==> r[k] == if Within(k, s, n) then 0 else f[k]
  {
    seq(|f|, k requires 0 <= k < |f| => if Within(k, s, n) then 0 else f[k])
  }

  function ZeroPages(pages: seq<Bytes>, s: nat, n: nat): (r: seq<Bytes>)
    requires s + n <= |pages|
    ensures |r| == |pages| && forall k :: 0 <= k < |r| ==> r[k] == if Within(k, s, n) then ZeroPage() else pages[k]
  {
    seq(|pages|, k requires 0 <= k < |pages| => if Within(k, s, n) then ZeroPage() else pages[k])
  }

  // Nothing is left in the pages that are free.
  ghost predicate FreeZero(f: seq<Flag>, pages: seq<Bytes>) {
    |f| == |pages| && forall i :: 0 <= i < |f| && f[i] == 0 ==> pages[i] == ZeroPage()
  }

  lemma ClearFreeZero(f: seq<Flag>, pages: seq<Bytes>, s: nat, n: nat)
    requires FreeZero(f, pages) && s + n <= |f|
    ensures FreeZero(Clear(f, s, n), ZeroPages(pages, s, n))
  {
  }

  // The first entry from i on that is not 1.
  function EndOf(f: seq<Flag>, i: nat): (e: nat)
    requires WellFormed(f) && i < |f|
    ensures i <= e < |f| && f[e] != 1 && (forall k :: i <= k < e ==> f[k] == 1) && (i < e ==> f[e] == 2)
    decreases |f| - i
  {
    if f[i] == 1 then EndOf(f, i + 1) else i
  }

  // Every page in use belongs to a block ...
  lemma {:induction false} BlockOf(f: seq<Flag>, k: nat) returns (s: nat, n: nat)
    requires WellFormed(f) && k < |f| && f[k] != 0
    ensures IsBlock(f, s, n) && Within(k, s, n)
  {
    if k > 0 && f[k - 1] == 1 {
      s, n := BlockOf(f, k - 1);
    } else {
      s, n := k, EndOf(f, k) - k + 1;
    }
  }

  // ... and to one only.
  lemma BlocksApart(f: seq<Flag>, k: nat, s: nat, n: nat, t: nat, m: nat)
    requires IsBlock(f, s, n) && IsBlock(f, t, m) && Within(k, s, n) && Within(k, t, m)
    ensures s == t && n == m
  {
  }

  // Allocating adds exactly one block, on pages that were free.
  lemma MarkAdds(f: seq<Flag>, s: nat, n: nat)
    requires WellFormed(f) && n > 0 && Fit(f, s, n)
    ensures WellFormed(Mark(f, s, n))
    ensures forall t: nat, m: nat :: IsBlock(Mark(f, s, n), t, m) <==> IsBlock(f, t, m) || (t == s && m == n)
    ensures forall t: nat, m: nat :: IsBlock(f, t, m) ==> t + m <= s || s + n <= t
  {
    var g := Mark(f, s, n);
    assert f[s] == 0;
    forall t: nat, m: nat | IsBlock(f, t, m) ensures t + m <= s || s + n <= t {
      assert t < s < t + m ==> Inner(f, s - 1);
      assert Within(t, s, n) ==> !Used(f, t);
    }
    forall t: nat, m: nat ensures IsBlock(g, t, m) <==> IsBlock(f, t, m) || (t == s && m == n) {
      if IsBlock(g, t, m) && (exists k :: Within(k, s, n) && Within(k, t, m)) {
        assert IsBlock(g, s, n);
        var k :| Within(k, s, n) && Within(k, t, m);
        BlocksApart(g, k, s, n, t, m);
      } else if IsBlock(g, t, m) {
        assert !Within(t, s, n) && !Within(t + m - 1, s, n) && !Within(s, t, m);
        forall k | t <= k < t + m ensures f[k] == g[k] { assert Within(k, t, m); }
      }
    }
  }

  // Freeing the head of a block removes exactly that block.
  lemma ClearRemoves(f: seq<Flag>, s: nat, n: nat)
    requires WellFormed(f) && IsBlock(f, s, n)
    ensures EndOf(f, s) == s + n - 1
    ensures WellFormed(Clear(f, s, n))
    ensures forall t: nat, m: nat :: IsBlock(Clear(f, s, n), t, m) <==> IsBlock(f, t, m) && !(t == s && m == n)
  {
  }

  // Freeing what was just allocated restores the table.
  lemma ClearMark(f: seq<Flag>, s: nat, n: nat)
    requires WellFormed(f) && n > 0 && Fit(f, s, n)
    ensures var g := Mark(f, s, n);
            WellFormed(g) && Clear(g, s, EndOf(g, s) - s + 1) == f
  {
    MarkAdds(f, s, n);
    ClearRemoves(Mark(f, s, n), s, n);
  }

  // Freeing from entry i on leaves a well-formed table exactly when i is not inside a block.
  lemma ClearWellFormed(f: seq<Flag>, i: nat)
    requires WellFormed(f) && i < |f|
    ensures WellFormed(Clear(f, i, EndOf(f, i) - i + 1)) <==> i == 0 || f[i - 1] != 1
  {
  }

  // ---------- The functions of mem.c ----------

  // The pointer, the null pointer, or an access past the end or before the start of the table.
  datatype Outcome = Block(ptr: nat) | Null | PastTable | BeforeTable

  // ceil(size / PAGE_SIZE), the sum in 64 bits and the result in 32 with sign.
  function PagesFor(size: u64): int {
    var n := (size + PAGE_SIZE - 1) % U64 / PAGE_SIZE % U32;
    if n < U31 then n else n - U32
  }

  // n pages hold size bytes, and fewer do not.
  predicate Holds(n: int, size: nat) { (n - 1) * PAGE_SIZE < size <= n * PAGE_SIZE }

  // The sum does not wrap round, and the count is a positive int.
  predicate Countable(size: nat) { 0 < size <= U64 - PAGE_SIZE && size <= (U31 - 1) * PAGE_SIZE }

  // The count is the smallest that holds the size, where the sum does not wrap round taken as a 32-bit int;
  // where it does, and for size 0, it is 0.
  lemma PagesForExactly(size: u64, n: int)
    ensures Countable(size) ==> (PagesFor(size) == n <==> Holds(n, size))
    ensures 0 < size <= U64 - PAGE_SIZE && Holds(n, size) ==>
              -U31 <= PagesFor(size) < U31 && (PagesFor(size) - n) % U32 == 0
    ensures size == 0 || size > U64 - PAGE_SIZE ==> PagesFor(size) == 0
  {
  }

  // So each of the bytes asked for lies in a page of the block.
  lemma BytesInside(heapStart: nat, pages: nat, s: nat, n: nat, size: nat, x: nat) returns (k: nat)
    requires Holds(n, size) && s + n <= pages && pages * PAGE_SIZE < U32
    requires PageAt(heapStart, pages, s) <= x < PageAt(heapStart, pages, s) + size
    ensures s <= k < s + n && PageAt(heapStart, pages, k) <= x < PageAt(heapStart, pages, k) + PAGE_SIZE
  {
    k := s + (x - PageAt(heapStart, pages, s)) / PAGE_SIZE;
  }

  lemma CountHolds(size: u64)
    requires Countable(size)
    ensures forall n: int :: Holds(n, size) <==> n == PagesFor(size)
    ensures PagesFor(size) > 0
  {
    forall n: int ensures Holds(n, size) <==> n == PagesFor(size) { PagesForExactly(size, n); }
  }

  // Which page has address p; |ptrs| when none has.
  function IndexOf(ptrs: seq<nat>, p: nat): (i: nat)
    ensures i <= |ptrs| && (i < |ptrs| ==> ptrs[i] == p) && forall k :: 0 <= k < i ==> ptrs[k] != p
  {
    if ptrs == [] || ptrs[0] == p then 0 else 1 + IndexOf(ptrs[1..], p)
  }

  class Heap {
    const flag: array<Flag>
    const ptr: array<nat>
    // What the pages hold.
    const page: array<Bytes>

    ghost predicate Valid()
      reads this, flag, ptr
    {
      flag.Length == ptr.Length == page.Length && WellFormed(flag[..])
      && (forall i, j :: 0 <= i < j < ptr.Length ==> ptr[i] < ptr[j])
      && (forall i :: 0 <= i < ptr.Length ==> ptr[i] > 0)
    }

    // page_init, on a heap that holds zeroes.
    constructor (heapStart: nat, heapSize: u32)
      requires heapSize >= PAGE_SIZE + ENTRY_SIZE && 0 < heapStart
      ensures Valid() && FreeZero(flag[..], page[..]) && fresh(flag) && fresh(ptr) && fresh(page)
      ensures flag.Length == NumPages(heapSize) && forall i :: 0 <= i < flag.Length ==> flag[i] == 0
      ensures forall i :: 0 <= i < ptr.Length ==> ptr[i] == PageAt(heapStart, ptr.Length, i)
    {
      var n := NumPages(heapSize);
      flag := new Flag[n];
      ptr := new nat[n];
      page := new Bytes[n](_ => ZeroPage());
      new;
      var i := 0;
      while i < n
        invariant 0 <= i <= n
        invariant forall k :: 0 <= k < i ==> flag[k] == 0 && ptr[k] == PageAt(heapStart, n, k)
        invariant forall k :: 0 <= k < n ==> page[k] == ZeroPage()
      {
        flag[i] := 0;
        ptr[i] := AllocStart(heapStart, n) + i * PAGE_SIZE % U32;
        i := i + 1;
      }
      HeapApart(heapStart, heapSize);
    }

    // malloc: the lowest run that fits, although the scan goes on behind the page that stopped it.
    // The inner scan has no bound: it leaves the table when nothing fits and the last page is free.
    method Malloc(size: u64) returns (r: Outcome)
      requires Valid()
      modifies flag
      ensures Valid()
      ensures var f, n := old(flag[..]), PagesFor(size);
              match r
              case Block(p) =>
                n > 0 && exists s: nat :: Fit(f, s, n) && p == ptr[s] && flag[..] == Mark(f, s, n)
                                          && forall t: nat :: t < s ==> !Fit(f, t, n)
              case Null => flag[..] == f && (|f| == 0 || n < 0 || (f[|f| - 1] != 0 && forall t: nat :: !Fit(f, t, n)))
              case PastTable => flag[..] == f && n > 1 && |f| > 0 && f[|f| - 1] == 0 && forall t: nat :: !Fit(f, t, n)
              case BeforeTable => flag[..] == f && n == 0 && |f| > 0
      ensures Countable(size) ==>
                !r.BeforeTable?
                && (r.Block? ==> exists s: nat, n: nat :: Holds(n, size) && Fit(old(flag[..]), s, n) && r.ptr == ptr[s]
                                                          && flag[..] == Mark(old(flag[..]), s, n))
                && forall s: nat, n: nat :: Holds(n, size) && Fit(old(flag[..]), s, n) ==> r.Block?
    {
      if Countable(size) { CountHolds(size); }
      ghost var f := flag[..];
      var n := PagesFor(size);
      var i := 0;
      while i < flag.Length
        invariant 0 <= i <= flag.Length && flag[..] == f
        invariant n > 0 ==> forall t: nat :: t < i ==> !Fit(f, t, n)
        invariant n == 0 ==> i == 0
        invariant i > 0 && n > 0 ==> f[i - 1] != 0
      {
        var start := i;
        var j := 0;
        while j < n
          invariant 0 <= j && (j <= n || (n < 0 && j == 0)) && i == start + j <= flag.Length && flag[..] == f
          invariant forall k :: start <= k < i ==> f[k] == 0
        {
          if i >= flag.Length {
            assert f[i - 1] == 0;
            return PastTable;
          }
          if flag[i] != 0 { break; }
          j := j + 1;
          i := i + 1;
        }
        if j == n {
          if n == 0 { return BeforeTable; }
          SetFlags(start, n);
          MarkAdds(f, start, n);
          return Block(ptr[start]);
        }
        i := i + 1;
      }
      return Null;
    }

    method SetFlags(start: nat, n: nat)
      requires 0 < n && start + n <= flag.Length
      modifies flag
      ensures flag[..] == Mark(old(flag[..]), start, n)
    {
      var j, p := 0, start;
      while j < n
        invariant 0 <= j <= n && p == start + j
        invariant forall k :: 0 <= k < flag.Length ==> flag[k] == if Within(k, start, j) then 1 else old(flag[k])
      {
        flag[p] := 1;
        j := j + 1;
        p := p + 1;
      }
      p := p - 1;
      flag[p] := 2;
    }

    // A page in use belongs to its holder, who may write to it.
    method Write(i: nat, bytes: Bytes)
      requires Valid() && i < flag.Length && flag[i] != 0
      modifies page
      ensures page[..] == old(page[..])[i := bytes]
      ensures FreeZero(flag[..], old(page[..])) ==> FreeZero(flag[..], page[..])
    {
      page[i] := bytes;
    }

    // free: a pointer between pages or below them is ignored; from a page on, the rest of its block is
    // zeroed and freed; for a pointer above the last page the loop goes on to the entry past the table.
    method Free(p: nat) returns (past: bool)
      requires Valid()
      modifies flag, page
      ensures past <==> flag.Length == 0 || p > ptr[flag.Length - 1]
      ensures var f, pages, i := old(flag[..]), old(page[..]), IndexOf(ptr[..], p);
              if i == |f| then flag[..] == f && page[..] == pages
              else
                && flag[..] == Clear(f, i, EndOf(f, i) - i + 1)
                && page[..] == ZeroPages(pages, i, EndOf(f, i) - i + 1)
    {
      var i;
      i, past := Find(p);
      if i < flag.Length { ClearFrom(i); }
    }

    // The first loop of free: the page at p, or the length of the table when p is passed over or the
    // loop has come to the end.
    method Find(p: nat) returns (i: nat, past: bool)
      requires Valid()
      ensures i == IndexOf(ptr[..], p)
      ensures past <==> flag.Length == 0 || p > ptr[flag.Length - 1]
    {
      i := 0;
      while i < flag.Length
        invariant 0 <= i <= flag.Length
        invariant forall k :: 0 <= k < i ==> ptr[k] < p
      {
        if ptr[i] == p { return i, false; }
        if ptr[i] > p { return flag.Length, false; }
        i := i + 1;
      }
      past := true;
    }

    // The second loop of free.
    method ClearFrom(first: nat)
      requires Valid() && first < flag.Length
      modifies flag, page
      ensures var n := EndOf(old(flag[..]), first) - first + 1;
              flag[..] == Clear(old(flag[..]), first, n) && page[..] == ZeroPages(old(page[..]), first, n)
    {
      ghost var f, was := flag[..], page[..];
      ghost var e := EndOf(f, first);
      var i := first;
      while flag[i] == 1
        invariant first <= i <= e
        invariant flag[..] == Clear(f, first, i - first) && page[..] == ZeroPages(was, first, i - first)
        decreases e - i
      {
        page[i] := ZeroPage();
        flag[i] := 0;
        i := i + 1;
      }
      page[i] := ZeroPage();
      flag[i] := 0;
    }
  }

  // ---------- What a scan can and cannot do ----------

  // For one page the scan never leaves the table, and fails exactly when no page is free.
  lemma OnePage(f: seq<Flag>)
    ensures (exists t: nat :: Fit(f, t, 1)) <==> exists k :: 0 <= k < |f| && f[k] == 0
    ensures (forall t: nat :: !Fit(f, t, 1)) ==> |f| == 0 || f[|f| - 1] != 0
  {
    forall k | 0 <= k < |f| && f[k] == 0 ensures Fit(f, k, 1) { }
    forall t: nat | Fit(f, t, 1) ensures t < |f| && f[t] == 0 { }
  }
}
