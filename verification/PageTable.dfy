// walk, map_page, map_pages and kernel_mapping of vm.c: a three-level table built out of allocator
// pages, proved against the hardware walk of Sv39.

module PageTables {
  import opened Sv39
  const UART := 0x1000_0000
  const VIRTIO0 := 0x1000_1000
  const PLIC_BASE := 0x0c00_0000
  const PLIC_SIZE := 0x40_0000
  const KERNEL_START_ADDR := 0x8000_0000
  const KERNEL_END_ADDR := 0x8800_0000

  const KERNEL_TABLES := 69

  const U64 := 0x1_0000_0000_0000_0000
  const TOP := MAXVA / 4096

  // ---------- The tables in memory ----------

  datatype Role = Root | Level1(i: nat) | Level0(k: nat)

  // Which pages are tables: level-1 tables by root index, level-0 tables by 2 MiB region, and the
  // one role of each page.
  datatype Tables = Tables(root: nat, l1: map<nat, nat>, l0: map<nat, nat>, role: map<nat, Role>)

  predicate IsPage(p: nat) {
    0 < p < MAXPA && p % PAGE_SIZE == 0
  }

  function Pointer(page: nat): u64
    requires IsPage(page)
  {
    PaToPte(page) + PTE_V
  }

  // Root entry i points to its level-1 table, or is invalid.
  ghost predicate RootEntryOk(mem: Memory, t: Tables, i: nat)
    requires i < PT_ENTRY_COUNT
  {
    if i in t.l1 then
      IsPage(t.l1[i]) && t.l1[i] in t.role && t.role[t.l1[i]] == Level1(i) && t.l1[i] in mem
      && Load(mem, t.root, i) == Pointer(t.l1[i])
    else !Bit(Load(mem, t.root, i), 1)
  }

  // Level-1 entry k points to its level-0 table, or is invalid.
  ghost predicate L1EntryOk(mem: Memory, t: Tables, k: nat) {
    if k in t.l0 then
      k / 512 in t.l1 && IsPage(t.l0[k]) && t.l0[k] in t.role && t.role[t.l0[k]] == Level0(k) && t.l0[k] in mem
      && Load(mem, t.l1[k / 512], k % 512) == Pointer(t.l0[k])
    else k / 512 in t.l1 ==> !Bit(Load(mem, t.l1[k / 512], k % 512), 1)
  }

  ghost predicate TablesOk(mem: Memory, t: Tables) {
    IsPage(t.root) && t.root in mem && t.root in t.role && t.role[t.root] == Root
    && (forall i {:trigger RootEntryOk(mem, t, i)} :: 0 <= i < PT_ENTRY_COUNT ==> RootEntryOk(mem, t, i))
    && (forall k {:trigger L1EntryOk(mem, t, k)} :: 0 <= k < 0x4_0000 ==> L1EntryOk(mem, t, k))
    && (forall i :: i in t.l1 ==> i < PT_ENTRY_COUNT)
    && (forall k :: k in t.l0 ==> k < 0x4_0000)
  }

  // The last-level entry of page number v; 0, an invalid entry, where no table is.
  ghost function EntryOf(mem: Memory, t: Tables, v: nat): u64 {
    if v / 512 in t.l0 then Load(mem, t.l0[v / 512], v % 512) else 0
  }

  ghost predicate SameEntries(mem: Memory, t: Tables, mem': Memory, t': Tables) {
    forall v: nat :: EntryOf(mem', t', v) == EntryOf(mem, t, v)
  }

  // Pages the allocator may hand out: aligned, and no table among them.
  ghost predicate PoolOk(t: Tables, pool: set<nat>) {
    forall p :: p in pool ==> IsPage(p) && p !in t.role
  }

  // ---------- The hardware sees the last-level entries ----------

  lemma HardwareSees(mem: Memory, t: Tables, va: nat)
    requires TablesOk(mem, t) && va < VSPACE
    ensures Translate(mem, t.root, va) == OfEntry(EntryOf(mem, t, va / 4096), va % 4096)
  {
    IndicesDetermine(va);
    var i, k := Index(2, va), va / 4096 / 512;
    assert RootEntryOk(mem, t, i) && L1EntryOk(mem, t, k);
    assert k / 512 == i && k % 512 == Index(1, va);
    if i in t.l1 {
      PointerEntry(t.l1[i]);
      assert Walk(mem, t.root, va, 2) == Walk(mem, t.l1[i], va, 1);
      if k in t.l0 {
        PointerEntry(t.l0[k]);
        assert Walk(mem, t.l1[i], va, 1) == Walk(mem, t.l0[k], va, 0);
        LastLevel(mem, t.l0[k], va);
      }
    }
  }

  lemma LastLevel(mem: Memory, a: nat, va: nat)
    ensures Walk(mem, a, va, 0) == OfEntry(Load(mem, a, Index(0, va)), va % 4096)
  {
  }

  // ---------- The tables form a tree ----------

  // Where a table hangs.
  datatype Place = Place(table: nat, index: nat)

  ghost predicate Hangs(t: Tables, page: nat, at: Place) {
    (exists i :: i in t.l1 && t.l1[i] == page && at == Place(t.root, i))
    || (exists k :: k in t.l0 && k / 512 in t.l1 && t.l0[k] == page && at == Place(t.l1[k / 512], k % 512))
  }

  // No two tables share a page, no entry refers to the root, and two entries never refer to one
  // table.
  lemma TablesApart(mem: Memory, t: Tables, page: nat, a: Place, b: Place)
    requires TablesOk(mem, t) && Hangs(t, page, a) && Hangs(t, page, b)
    ensures a == b && page != t.root && IsPage(page)
    ensures a.index < PT_ENTRY_COUNT && Load(mem, a.table, a.index) == Pointer(page)
  {
    forall i | i in t.l1 ensures RootEntryOk(mem, t, i) { }
    forall k | k in t.l0 ensures L1EntryOk(mem, t, k) { }
  }

  // ---------- Changing one table ----------

  function Store(mem: Memory, page: nat, i: nat, pte: u64): Memory
    requires page in mem && i < PT_ENTRY_COUNT
  {
    mem[page := mem[page][i := pte]]
  }

  // A new, empty level-1 table under root entry i.
  lemma AddLevel1(mem: Memory, t: Tables, i: nat, p: nat)
    requires TablesOk(mem, t) && i < PT_ENTRY_COUNT && i !in t.l1 && IsPage(p) && p !in t.role
    ensures var mem' := Store(mem[p := ZeroPage()], t.root, i, Pointer(p));
            var t' := t.(l1 := t.l1[i := p], role := t.role[p := Level1(i)]);
            TablesOk(mem', t') && SameEntries(mem, t, mem', t')
  {
    var mem' := Store(mem[p := ZeroPage()], t.root, i, Pointer(p));
    var t' := t.(l1 := t.l1[i := p], role := t.role[p := Level1(i)]);
    forall j | 0 <= j < PT_ENTRY_COUNT
      ensures RootEntryOk(mem', t', j)
    {
      assert RootEntryOk(mem, t, j);
    }
    forall k | 0 <= k < 0x4_0000
      ensures L1EntryOk(mem', t', k)
    {
      assert L1EntryOk(mem, t, k);
      if k / 512 in t.l1 { assert RootEntryOk(mem, t, k / 512); }
    }
    forall v: nat
      ensures EntryOf(mem', t', v) == EntryOf(mem, t, v)
    {
      if v / 512 in t.l0 { assert L1EntryOk(mem, t, v / 512); }
    }
  }

  // A new, empty level-0 table under level-1 entry k.
  lemma AddLevel0(mem: Memory, t: Tables, k: nat, p: nat)
    requires TablesOk(mem, t) && k < 0x4_0000 && k / 512 in t.l1 && k !in t.l0 && IsPage(p) && p !in t.role
    ensures t.l1[k / 512] in mem
    ensures var mem' := Store(mem[p := ZeroPage()], t.l1[k / 512], k % 512, Pointer(p));
            var t' := t.(l0 := t.l0[k := p], role := t.role[p := Level0(k)]);
            TablesOk(mem', t') && SameEntries(mem, t, mem', t')
  {
    assert RootEntryOk(mem, t, k / 512);
    var q := t.l1[k / 512];
    var mem' := Store(mem[p := ZeroPage()], q, k % 512, Pointer(p));
    var t' := t.(l0 := t.l0[k := p], role := t.role[p := Level0(k)]);
    forall j | 0 <= j < PT_ENTRY_COUNT
      ensures RootEntryOk(mem', t', j)
    {
      assert RootEntryOk(mem, t, j);
    }
    forall m | 0 <= m < 0x4_0000
      ensures L1EntryOk(mem', t', m)
    {
      assert L1EntryOk(mem, t, m);
      if m / 512 in t.l1 { assert RootEntryOk(mem, t, m / 512); }
      if m != k { assert m / 512 != k / 512 || m % 512 != k % 512; }
    }
    forall v: nat
      ensures EntryOf(mem', t', v) == EntryOf(mem, t, v)
    {
      if v / 512 in t.l0 { assert L1EntryOk(mem, t, v / 512); }
    }
  }

  // Storing a last-level entry changes that entry and no other.
  lemma SetLeaf(mem: Memory, t: Tables, v: nat, pte: u64)
    requires TablesOk(mem, t) && v / 512 in t.l0
    ensures t.l0[v / 512] in mem
    ensures var mem' := Store(mem, t.l0[v / 512], v % 512, pte);
            TablesOk(mem', t)
            && forall w: nat :: EntryOf(mem', t, w) == if w == v then pte else EntryOf(mem, t, w)
  {
    assert L1EntryOk(mem, t, v / 512);
    var mem' := Store(mem, t.l0[v / 512], v % 512, pte);
    forall j | 0 <= j < PT_ENTRY_COUNT
      ensures RootEntryOk(mem', t, j)
    {
      assert RootEntryOk(mem, t, j);
    }
    forall m | 0 <= m < 0x4_0000
      ensures L1EntryOk(mem', t, m)
    {
      assert L1EntryOk(mem, t, m);
      if m / 512 in t.l1 { assert RootEntryOk(mem, t, m / 512); }
    }
    forall w: nat
      ensures EntryOf(mem', t, w) == if w == v then pte else EntryOf(mem, t, w)
    {
      if w / 512 in t.l0 { assert L1EntryOk(mem, t, w / 512); }
      if w != v { assert w / 512 != v / 512 || w % 512 != v % 512; }
    }
  }

  // ---------- The calls of vm.c ----------

  // The table a walk for va stands at when it has gone down to this level.
  ghost predicate AtLevel(t: Tables, level: nat, va: nat, table: nat) {
    if level == 2 then table == t.root
    else if level == 1 then va / 0x4000_0000 in t.l1 && table == t.l1[va / 0x4000_0000]
    else va / 0x20_0000 in t.l0 && table == t.l0[va / 0x20_0000]
  }

  // The tables a walk for va may have added on its way down to this level, page by page out of
  // the pool.
  ghost predicate Extended(t: Tables, pool: set<nat>, t': Tables, pool': set<nat>, level: nat, i: nat, k: nat) {
    t'.root == t.root && pool' <= pool
    && t'.l1.Keys == (if level == 2 then t.l1.Keys else t.l1.Keys + {i})
    && t'.l0.Keys == (if level == 0 then t.l0.Keys + {k} else t.l0.Keys)
    && |pool'| + |t'.l1.Keys| + |t'.l0.Keys| == |pool| + |t.l1.Keys| + |t.l0.Keys|
  }

  function WithTable(t: Tables, level: nat, va: nat, page: nat): Tables {
    if level == 2 then
      t.(l1 := t.l1[va / 0x4000_0000 := page], role := t.role[page := Level1(va / 0x4000_0000)])
    else
      t.(l0 := t.l0[va / 0x20_0000 := page], role := t.role[page := Level0(va / 0x20_0000)])
  }

  // One level down a valid entry.
  lemma FollowEntry(mem: Memory, t: Tables, level: nat, va: nat, table: nat)
    requires TablesOk(mem, t) && va < MAXVA && 0 < level <= 2 && AtLevel(t, level, va, table)
    requires Bit(Load(mem, table, Index(level, va)), PTE_V)
    ensures AtLevel(t, level - 1, va, PteToPa(Load(mem, table, Index(level, va))))
  {
    IndicesDetermine(va);
    var i, k := va / 0x4000_0000, va / 0x20_0000;
    assert k / 512 == i && k % 512 == Index(1, va) && i == Index(2, va);
    assert RootEntryOk(mem, t, i) && L1EntryOk(mem, t, k);
    if level == 2 { PointerEntry(t.l1[i]); } else { PointerEntry(t.l0[k]); }
  }

  // One level down a new table.
  lemma NewTable(mem: Memory, t: Tables, level: nat, va: nat, table: nat, page: nat)
    requires TablesOk(mem, t) && va < MAXVA && 0 < level <= 2 && AtLevel(t, level, va, table)
    requires !Bit(Load(mem, table, Index(level, va)), PTE_V) && IsPage(page) && page !in t.role
    ensures table in mem && page != table
    ensures var mem' := Store(mem[page := ZeroPage()], table, Index(level, va), Pointer(page));
            var t' := WithTable(t, level, va, page);
            TablesOk(mem', t') && SameEntries(mem, t, mem', t') && AtLevel(t', level - 1, va, page)
    ensures if level == 2 then va / 0x4000_0000 !in t.l1 else va / 0x20_0000 !in t.l0
  {
    IndicesDetermine(va);
    var i, k := va / 0x4000_0000, va / 0x20_0000;
    assert k / 512 == i && k % 512 == Index(1, va) && i == Index(2, va);
    assert RootEntryOk(mem, t, i) && L1EntryOk(mem, t, k);
    if level == 2 {
      if i in t.l1 { PointerEntry(t.l1[i]); assert false; }
      AddLevel1(mem, t, i, page);
    } else {
      if k in t.l0 { PointerEntry(t.l0[k]); assert false; }
      AddLevel0(mem, t, k, page);
    }
  }

  // Where the entry is invalid, so is the whole region below it.
  lemma NothingBelow(mem: Memory, t: Tables, level: nat, va: nat, table: nat)
    requires TablesOk(mem, t) && va < MAXVA && 0 < level <= 2 && AtLevel(t, level, va, table)
    requires !Bit(Load(mem, table, Index(level, va)), PTE_V)
    ensures va / 0x20_0000 !in t.l0
  {
    IndicesDetermine(va);
    var i, k := va / 0x4000_0000, va / 0x20_0000;
    assert k / 512 == i && k % 512 == Index(1, va) && i == Index(2, va);
    assert RootEntryOk(mem, t, i) && L1EntryOk(mem, t, k);
    if k in t.l0 {
      PointerEntry(t.l1[i]);
      PointerEntry(t.l0[k]);
      assert false;
    }
  }

  // One step of the walk: the tables as they were, or with one more out of the pool.
  ghost predicate OneStep(t: Tables, pool: set<nat>, t': Tables, pool': set<nat>, level: nat, va: nat, table: nat) {
    (t' == t && pool' == pool)
    || (table in pool && pool' == pool - {table} && t' == WithTable(t, level, va, table)
        && if level == 2 then va / 0x4000_0000 !in t.l1 else va / 0x20_0000 !in t.l0)
  }

  lemma ExtendedStep(t0: Tables, pool0: set<nat>, t: Tables, pool: set<nat>, t': Tables, pool': set<nat>,
                     level: nat, va: nat, table: nat)
    requires Extended(t0, pool0, t, pool, level, va / 0x4000_0000, va / 0x20_0000) && 0 < level <= 2
    requires OneStep(t, pool, t', pool', level, va, table) && AtLevel(t', level - 1, va, table)
    ensures Extended(t0, pool0, t', pool', level - 1, va / 0x4000_0000, va / 0x20_0000)
  {
    var i, k := va / 0x4000_0000, va / 0x20_0000;
    if t' == t && pool' == pool {
      if level == 2 { KeyThere(t.l1, i); } else { KeyThere(t.l0, k); }
    } else {
      if level == 2 { KeyAdded(t.l1, i, table); } else { KeyAdded(t.l0, k, table); }
      assert |pool'| == |pool| - 1;
    }
  }

  lemma KeyThere(m: map<nat, nat>, i: nat)
    requires i in m
    ensures m.Keys == m.Keys + {i}
  {
  }

  lemma KeyAdded(m: map<nat, nat>, i: nat, p: nat)
    requires i !in m
    ensures m[i := p].Keys == m.Keys + {i} && |m[i := p].Keys| == |m.Keys| + 1
  {
  }

  class PageTable {
    var mem: Memory
    var pool: set<nat>
    ghost var tables: Tables

    ghost predicate Valid()
      reads this
    {
      TablesOk(mem, tables) && PoolOk(tables, pool)
    }

    // What the hardware makes of an address.
    ghost function Translated(va: nat): Translation
      requires va < VSPACE
      reads this
    {
      Translate(mem, tables.root, va)
    }

    // A table of one zeroed page, and the pages malloc has left.
    constructor (root: nat, free: set<nat>)
      requires IsPage(root) && root !in free && forall p :: p in free ==> IsPage(p)
      ensures Valid() && pool == free && tables == Tables(root, map[], map[], map[root := Root])
    {
      mem := map[root := ZeroPage()];
      pool := free;
      tables := Tables(root, map[], map[], map[root := Root]);
    }

    // malloc(4096): some free page, or 0 when there is none.
    method Malloc() returns (p: nat)
      requires Valid()
      modifies this`pool
      ensures if old(pool) == {} then p == 0 && pool == {} else p in old(pool) && pool == old(pool) - {p}
    {
      if pool == {} {
        return 0;
      }
      p :| p in pool;
      pool := pool - {p};
    }

    // One turn of the loop of walk: the next table down, or 0 when a new one is needed and the
    // allocator is empty.
    method StepDown(table: nat, level: nat, va: u64) returns (next: nat)
      requires Valid() && va < MAXVA && 0 < level <= 2 && AtLevel(tables, level, va, table)
      modifies this
      ensures Valid() && SameEntries(old(mem), old(tables), mem, tables)
      ensures if next == 0 then
                pool == {} && old(pool) == {} && tables == old(tables) && va / 0x20_0000 !in tables.l0
              else AtLevel(tables, level - 1, va, next)
                   && OneStep(old(tables), old(pool), tables, pool, level, va, next)
    {
      var pte := Load(mem, table, Index(level, va));
      if Bit(pte, PTE_V) {
        FollowEntry(mem, tables, level, va, table);
        TablesNonzero(mem, tables, level - 1, va, PteToPa(pte));
        return PteToPa(pte);
      }
      NothingBelow(mem, tables, level, va, table);
      next := Malloc();
      if next == 0 {
        return;
      }
      NewTable(mem, tables, level, va, table, next);
      mem := mem[next := ZeroPage()];
      mem := Store(mem, table, Index(level, va), PaToPte(next) + PTE_V);
      tables := WithTable(tables, level, va, next);
    }

    // walk: the entry slot of va as a table and an index, or no slot for an address out of range or
    // when the allocator is empty.  Tables are added on the way; no entry changes.
    method Walk(pagetable: nat, va: u64) returns (found: bool, table: nat, index: nat)
      requires Valid() && pagetable == tables.root
      modifies this
      ensures Valid() && SameEntries(old(mem), old(tables), mem, tables)
      ensures va >= MAXVA ==> !found && mem == old(mem) && tables == old(tables) && pool == old(pool)
      ensures tables.root == old(tables.root)
      ensures va < MAXVA ==> WalkResult(old(tables), old(pool), tables, pool, va / 0x4000_0000, va / 0x20_0000, found)
      ensures found ==> va < MAXVA && AtLevel(tables, 0, va, table) && index == Index(0, va)
    {
      found, table, index := false, pagetable, 0;
      if va >= MAXVA {
        return;
      }
      var level := 2;
      while level > 0
        invariant 0 <= level <= 2 && Valid() && SameEntries(old(mem), old(tables), mem, tables)
        invariant AtLevel(tables, level, va, table)
        invariant Extended(old(tables), old(pool), tables, pool, level, va / 0x4000_0000, va / 0x20_0000)
      {
        ghost var t, spare := tables, pool;
        var next := StepDown(table, level, va);
        if next == 0 {
          return;
        }
        ExtendedStep(old(tables), old(pool), t, spare, tables, pool, level, va, next);
        table := next;
        level := level - 1;
      }
      found, index := true, Index(0, va);
    }

    // map_page.  On success the hardware sends every address of the page to the frame, provided the
    // permissions are a leaf's, and every other address where it went before.  On failure (-1: no
    // slot; -2: already mapped) every address goes where it went before.
    method MapPage(pagetable: nat, va: u64, pa: u64, perm: nat) returns (r: int)
      requires Valid() && pagetable == tables.root && perm < 1024 && pa < MAXPA
      modifies this
      ensures Valid() && tables.root == old(tables.root)
      ensures r == 0 || r == -1 || r == -2
      ensures Remapped(old(mem), mem, tables.root, va / 4096, pa, perm, r == 0)
      ensures Entered(old(mem), old(tables), mem, tables, va / 4096, pa, perm, r == 0)
      ensures r == -2 ==> Bit(EntryOf(old(mem), old(tables), va / 4096), PTE_V)
      ensures r == 0 ==> va < MAXVA && !Bit(EntryOf(old(mem), old(tables), va / 4096), PTE_V)
      ensures va >= MAXVA ==> r == -1 && mem == old(mem) && tables == old(tables) && pool == old(pool)
      ensures va < MAXVA ==>
                WalkResult(old(tables), old(pool), tables, pool, va / 0x4000_0000, va / 0x20_0000, r != -1)
    {
      RoundedSame(va, pa, perm);
      var page, frame := RoundDown(va), RoundDown(pa);
      var found, table, index := Walk(pagetable, page);
      SlotEntry(old(mem), old(tables), mem, tables, va, page, table, index, found);
      if !found {
        r := -1;
      } else {
        var pte := Load(mem, table, index);
        if Bit(pte, PTE_V) {
          r := -2;
        } else {
          MapLeaf(old(mem), old(tables), mem, tables, va / 4096, table, index, pa, perm);
          mem := Store(mem, table, index, LeafPte(frame, perm));
          r := 0;
        }
      }
      EnteredTranslates(old(mem), old(tables), mem, tables, va / 4096, pa, perm, r == 0);
    }

    // map_pages ignores what map_page returns: each page of the range below MAXVA that was unmapped is
    // mapped or, when the allocator ran out, left unmapped; with enough pages for the missing tables all
    // are.  What that means for every address is said without the pages of the range.
    method MapPages(pagetable: nat, va: u64, pa: u64, size: u64, perm: nat) returns (r: int)
      requires Valid() && pagetable == tables.root && perm < 1024
      requires va + size + PAGE_SIZE <= U64 && pa + size + PAGE_SIZE <= MAXPA
      modifies this
      ensures Valid() && tables.root == old(tables.root) && r == 0
      ensures size == 0 || va >= MAXVA ==> mem == old(mem) && tables == old(tables) && pool == old(pool)
      ensures size > 0 && va < MAXVA ==>
                va / 4096 < EndPage(va, size)
                && RangeMapped(old(mem), old(tables), old(pool), mem, tables, pool,
                               va / 4096, EndPage(va, size), pa, perm)
      ensures |old(pool)| >= Needed(old(tables), va, size) ==>
                forall x: nat :: x < VSPACE ==>
                  MappedAt(old(Translated(x)), Translated(x), x, va, size, pa, perm,
                           EntryOf(old(mem), old(tables), x / 4096))
      ensures forall x: nat :: x < VSPACE ==>
                Translated(x) == old(Translated(x))
                || MappedAt(old(Translated(x)), Translated(x), x, va, size, pa, perm,
                            EntryOf(old(mem), old(tables), x / 4096))
    {
      r := 0;
      if size == 0 {
        return;
      }
      PagesOf(va, size);
      MapRange(pagetable, RoundDown(va), RoundDown(va + size - 1), pa, perm,
               va / 4096, (va + size - 1) / 4096 + 1);
      if va < MAXVA {
        RangeSeen(old(mem), old(tables), old(pool), mem, tables, pool, va, size, pa, perm);
      }
    }

    // The loop of map_pages, from the page at `start` to the page at `last`.
    method MapRange(pagetable: nat, start: u64, last: u64, pa: u64, perm: nat, ghost first: nat, ghost end: nat)
      requires Valid() && pagetable == tables.root && perm < 1024
      requires first < end && start == 4096 * first && last == 4096 * (end - 1) && last + PAGE_SIZE < U64
      requires pa + 4096 * (end - first) < MAXPA + 4096
      modifies this
      ensures Valid() && tables.root == old(tables.root)
      ensures first >= TOP ==> mem == old(mem) && tables == old(tables) && pool == old(pool)
      ensures first < TOP ==>
                RangeMapped(old(mem), old(tables), old(pool), mem, tables, pool, first, Below(end), pa, perm)
    {
      ghost var mem0, t0, pool0 := mem, tables, pool;
      ghost var c, top, short := first, Below(end), false;
      ghost var need := if first < top then Missing(tables, first, top) else 0;
      RangeStart(mem, tables, pool, first, need, pa, perm);
      var a, frame := start, pa;
      while a <= last
        invariant first <= c <= end && a == 4096 * c && frame == pa + 4096 * (c - first)
        invariant tables.root == pagetable && Ranged(mem0, t0, pool0, first, c, need, pa, perm, short)
        decreases end - c
      {
        short := MapTurn(pagetable, a, frame, perm, mem0, t0, pool0, first, c, top, need, pa, short);
        a, frame, c := a + PAGE_SIZE, frame + PAGE_SIZE, c + 1;
      }
      assert c == end;
      if first < TOP { RangeDone(mem0, t0, pool0, mem, tables, pool, first, top, need, pa, perm, short); }
    }

    // Where the loop stands after the pages up to c: those from MAXVA on have changed nothing.
    ghost predicate Ranged(mem0: Memory, t0: Tables, pool0: set<nat>, first: nat, c: nat, need: nat, pa: u64, perm: nat,
                           short: bool)
      requires perm < 1024
      reads this
    {
      Valid()
      && (first >= TOP ==> mem == mem0 && tables == t0 && pool == pool0)
      && (first < TOP ==> Ranging(mem0, t0, pool0, mem, tables, pool, first, Below(c), need, pa, perm, short))
    }

    method MapTurn(pagetable: nat, a: u64, frame: u64, perm: nat, ghost mem0: Memory, ghost t0: Tables,
                   ghost pool0: set<nat>, ghost first: nat, ghost c: nat, ghost top: nat, ghost need: nat,
                   ghost pa: u64, ghost short: bool)
      returns (ghost short': bool)
      requires pagetable == tables.root && perm < 1024 && first <= c && a == 4096 * c
      requires frame == pa + 4096 * (c - first) && frame < MAXPA && top <= TOP && (c < TOP ==> c < top)
      requires need == if first < top then Missing(t0, first, top) else 0
      requires Ranged(mem0, t0, pool0, first, c, need, pa, perm, short)
      modifies this
      ensures tables.root == old(tables.root) && Ranged(mem0, t0, pool0, first, c + 1, need, pa, perm, short')
    {
      short' := short;
      if a < MAXVA {
        short' := MapNext(pagetable, a, frame, perm, mem0, t0, pool0, first, c, top, need, pa, short);
      } else {
        var _ := MapPage(pagetable, a, frame, perm);
      }
    }

    // One page of map_pages.
    method MapNext(pagetable: nat, a: u64, frame: u64, perm: nat, ghost mem0: Memory, ghost t0: Tables,
                   ghost pool0: set<nat>, ghost first: nat, ghost c: nat, ghost end: nat, ghost need: nat,
                   ghost pa: u64, ghost short: bool)
      returns (ghost short': bool)
      requires Valid() && pagetable == tables.root && perm < 1024
      requires first <= c < end && a == 4096 * c && a < MAXVA && frame == pa + 4096 * (c - first) && frame < MAXPA
      requires need == Missing(t0, first, end)
      requires Ranging(mem0, t0, pool0, mem, tables, pool, first, c, need, pa, perm, short)
      modifies this
      ensures Valid() && tables.root == old(tables.root)
      ensures Ranging(mem0, t0, pool0, mem, tables, pool, first, c + 1, need, pa, perm, short')
    {
      ghost var m, t, spare := mem, tables, pool;
      RegionsOfPage(c);
      var code := MapPage(pagetable, a, frame, perm);
      assert a / 4096 == c && a / 0x4000_0000 == Region(c, 1) && a / 0x20_0000 == Region(c, 0);
      assert Entered(m, t, mem, tables, c, frame, perm, code == 0);
      short' := RangeStep(mem0, t0, pool0, m, t, spare, mem, tables, pool, first, c, end, need, pa, frame, perm,
                          code, short);
    }

    // kernel_mapping on a zero root.  With one page per missing table, 69 in all, the result is the
    // identity on the UART, the disk, the PLIC and the kernel, and a fault anywhere else.
    method KernelMapping(pt: nat)
      requires Valid() && pt == tables.root && tables.l1 == map[] && tables.l0 == map[]
      modifies this
      ensures Valid() && tables.root == pt
      ensures |old(pool)| >= KERNEL_TABLES ==>
                |pool| == |old(pool)| - KERNEL_TABLES && forall x :: 0 <= x < VSPACE ==> Translated(x) == KernelMap(x)
    {
      ghost var enough := |pool| >= KERNEL_TABLES;
      MapUart(pt);
      MapDisk(pt, enough);
      MapPlic(pt, enough);
      MapKernel(pt, enough);
      if enough {
        forall x: nat | x < VSPACE
          ensures Translated(x) == KernelMap(x)
        {
          KernelTranslates(mem, tables, x);
        }
      }
    }

    method MapUart(pt: nat)
      requires Valid() && pt == tables.root && tables.l1 == map[] && tables.l0 == map[]
      modifies this
      ensures Valid() && tables.root == pt
      ensures |old(pool)| >= KERNEL_TABLES ==>
                EntriesAre(mem, tables, 1) && tables.l1.Keys == {0} && tables.l0.Keys == {128}
                && |pool| == |old(pool)| - 2
    {
      DevicePages();
      var r := MapPage(pt, UART, UART, PTE_R + PTE_W);
      if |old(pool)| >= KERNEL_TABLES { AfterUart(old(mem), old(tables), old(pool), mem, tables, pool, r); }
    }

    method MapDisk(pt: nat, ghost enough: bool)
      requires Valid() && pt == tables.root
      requires enough ==> EntriesAre(mem, tables, 1) && tables.l1.Keys == {0} && tables.l0.Keys == {128}
                          && |pool| >= KERNEL_TABLES - 2
      modifies this
      ensures Valid() && tables.root == pt
      ensures enough ==> EntriesAre(mem, tables, 2) && tables.l1.Keys == {0} && tables.l0.Keys == {128}
                         && |pool| == |old(pool)|
    {
      DevicePages();
      var r := MapPage(pt, VIRTIO0, VIRTIO0, PTE_R + PTE_W);
      if enough { AfterDisk(old(mem), old(tables), old(pool), mem, tables, pool, r); }
    }

    method MapPlic(pt: nat, ghost enough: bool)
      requires Valid() && pt == tables.root
      requires enough ==> EntriesAre(mem, tables, 2) && tables.l1.Keys == {0} && tables.l0.Keys == {128}
                          && |pool| >= KERNEL_TABLES - 2
      modifies this
      ensures Valid() && tables.root == pt
      ensures enough ==> EntriesAre(mem, tables, 3) && tables.l1.Keys == {0} && tables.l0.Keys == {128, 96, 97}
                         && |pool| == |old(pool)| - 2
    {
      KernelRanges();
      var r := MapPages(pt, PLIC_BASE, PLIC_BASE, PLIC_SIZE, PTE_R + PTE_W);
      if enough { AfterPlic(old(mem), old(tables), old(pool), mem, tables, pool); }
    }

    method MapKernel(pt: nat, ghost enough: bool)
      requires Valid() && pt == tables.root
      requires enough ==> EntriesAre(mem, tables, 3) && tables.l1.Keys == {0} && tables.l0.Keys == {128, 96, 97}
                          && |pool| >= KERNEL_TABLES - 4
      modifies this
      ensures Valid() && tables.root == pt
      ensures enough ==> EntriesAre(mem, tables, 4) && |pool| == |old(pool)| - 65
    {
      KernelRanges();
      var r := MapPages(pt, KERNEL_START_ADDR, KERNEL_START_ADDR, KERNEL_END_ADDR - KERNEL_START_ADDR,
                        PTE_W + PTE_R + PTE_X);
      if enough { AfterKernel(old(mem), old(tables), old(pool), mem, tables, pool); }
    }
  }

  lemma DevicePages()
    ensures UART / 4096 == 0x10000 && UART / 0x4000_0000 == 0 && UART / 0x20_0000 == 128
    ensures VIRTIO0 / 4096 == 0x10001 && VIRTIO0 / 0x4000_0000 == 0 && VIRTIO0 / 0x20_0000 == 128
  {
  }

  lemma KernelRanges()
    ensures PLIC_BASE / 4096 == 0xc000 && EndPage(PLIC_BASE, PLIC_SIZE) == 0xc400
    ensures KERNEL_START_ADDR / 4096 == 0x80000
    ensures EndPage(KERNEL_START_ADDR, KERNEL_END_ADDR - KERNEL_START_ADDR) == 0x88000
  {
  }

  // Of the pages below `end`, those below MAXVA.
  function Below(end: nat): nat { if end <= TOP then end else TOP }

  // Where the pages of a range that map_page accepts end.
  function EndPage(va: nat, size: nat): nat
    requires size > 0
  {
    Below((va + size - 1) / 4096 + 1)
  }

  lemma PagesOf(va: u64, size: u64)
    requires size > 0 && va + size + PAGE_SIZE <= U64
    ensures var first, end := va / 4096, (va + size - 1) / 4096 + 1;
            first < end && RoundDown(va) == 4096 * first && RoundDown(va + size - 1) == 4096 * (end - 1)
            && 4096 * (end - 1) + PAGE_SIZE < U64 && 4096 * (end - first) < size + 8192
            && (va < MAXVA <==> first < TOP)
  {
  }

  lemma RoundedSame(va: u64, pa: u64, perm: nat)
    requires perm < 1024 && pa < MAXPA
    ensures RoundDown(va) / 4096 == va / 4096 && LeafPte(RoundDown(pa), perm) == LeafPte(pa, perm)
    ensures RoundDown(va) / 0x4000_0000 == va / 0x4000_0000 && RoundDown(va) / 0x20_0000 == va / 0x20_0000
    ensures RoundDown(va) >= MAXVA <==> va >= MAXVA
  {
    RoundedPage(va);
    assert RoundDown(pa) / 4096 == pa / 4096;
  }

  lemma RoundedPage(va: u64)
    ensures RoundDown(va) / 4096 == va / 4096 && (RoundDown(va) >= MAXVA <==> va >= MAXVA)
    ensures RoundDown(va) / 0x4000_0000 == va / 0x4000_0000 && RoundDown(va) / 0x20_0000 == va / 0x20_0000
  {
    var q, r := va / 4096, va % 4096;
    assert RoundDown(va) == 4096 * q;
    Quotient2M(q, r);
    Quotient2M(q, 0);
    Quotient1G(q, r);
    Quotient1G(q, 0);
  }

  lemma Quotient2M(q: nat, r: nat)
    requires r < 4096
    ensures (4096 * q + r) / 0x20_0000 == q / 512
  {
  }

  lemma Quotient1G(q: nat, r: nat)
    requires r < 4096
    ensures (4096 * q + r) / 0x4000_0000 == q / 0x4_0000
  {
  }

  // The slot of a page holds its entry.
  ghost predicate IsSlot(t: Tables, v: nat, table: nat, index: nat) {
    v / 512 in t.l0 && table == t.l0[v / 512] && index == v % 512
  }

  lemma SlotEntry(mem: Memory, t: Tables, mem': Memory, t': Tables, va: nat, page: nat, table: nat, index: nat,
                  found: bool)
    requires TablesOk(mem', t') && SameEntries(mem, t, mem', t') && page / 4096 == va / 4096
    requires found ==> page < MAXVA && AtLevel(t', 0, page, table) && index == Index(0, page)
    ensures found ==> IsSlot(t', va / 4096, table, index) && table in mem'
                      && Load(mem', table, index) == EntryOf(mem, t, va / 4096)
  {
    if found {
      IndicesDetermine(page);
      assert L1EntryOk(mem', t', page / 4096 / 512);
      assert EntryOf(mem', t', va / 4096) == EntryOf(mem, t, va / 4096);
    }
  }

  lemma MapLeaf(mem0: Memory, t0: Tables, mem: Memory, t: Tables, v: nat, table: nat, index: nat, pa: u64, perm: nat)
    requires TablesOk(mem, t) && SameEntries(mem0, t0, mem, t) && t.root == t0.root
    requires IsSlot(t, v, table, index) && table in mem && pa < MAXPA && perm < 1024
    ensures var mem' := Store(mem, table, index, LeafPte(pa, perm));
            TablesOk(mem', t) && Entered(mem0, t0, mem', t, v, pa, perm, true)
  {
    SetLeaf(mem, t, v, LeafPte(pa, perm));
    var mem' := Store(mem, table, index, LeafPte(pa, perm));
    forall w: nat
      ensures EntryOf(mem', t, w) == if w == v then LeafPte(pa, perm) else EntryOf(mem0, t0, w)
    {
      assert EntryOf(mem, t, w) == EntryOf(mem0, t0, w);
    }
  }

  // Every table page has a nonzero address.
  lemma TablesNonzero(mem: Memory, t: Tables, level: nat, va: nat, table: nat)
    requires TablesOk(mem, t) && va < MAXVA && level <= 2 && AtLevel(t, level, va, table)
    ensures table != 0
  {
    assert level == 1 ==> RootEntryOk(mem, t, va / 0x4000_0000);
    assert level == 0 ==> L1EntryOk(mem, t, va / 0x20_0000);
  }

  // How a walk ends: at the last level, or without a last-level table and with the allocator empty.
  ghost predicate WalkResult(t: Tables, pool: set<nat>, t': Tables, pool': set<nat>, i: nat, k: nat, found: bool) {
    if found then Extended(t, pool, t', pool', 0, i, k)
    else pool' == {} && k !in t'.l0
         && (Extended(t, pool, t', pool', 1, i, k) || Extended(t, pool, t', pool', 2, i, k))
  }

  // The last-level entries after map_page: one more leaf, or all as before.
  ghost predicate Entered(mem: Memory, t: Tables, mem': Memory, t': Tables, v: nat, pa: u64, perm: nat, ok: bool)
    requires pa < MAXPA && perm < 1024
  {
    t'.root == t.root
    && forall w: nat :: EntryOf(mem', t', w) == if ok && w == v then LeafPte(pa, perm) else EntryOf(mem, t, w)
  }

  // What the hardware makes of every address after map_page.
  ghost predicate Remapped(mem: Memory, mem': Memory, root: nat, v: nat, pa: u64, perm: nat, ok: bool) {
    forall x: nat :: x < VSPACE ==>
                       Translate(mem', root, x)
                       == if ok && x / 4096 == v then
                            if LeafPerm(perm) then Mapped(RoundDown(pa) + x % 4096, WithV(perm)) else PageFault
                          else Translate(mem, root, x)
  }

  lemma EnteredTranslates(mem: Memory, t: Tables, mem': Memory, t': Tables, v: nat, pa: u64, perm: nat, ok: bool)
    requires TablesOk(mem, t) && TablesOk(mem', t') && pa < MAXPA && perm < 1024
    requires Entered(mem, t, mem', t', v, pa, perm, ok)
    ensures Remapped(mem, mem', t.root, v, pa, perm, ok)
  {
    forall x: nat | x < VSPACE
      ensures Translate(mem', t.root, x)
           == if ok && x / 4096 == v then
                if LeafPerm(perm) then Mapped(RoundDown(pa) + x % 4096, WithV(perm)) else PageFault
              else Translate(mem, t.root, x)
    {
      HardwareSees(mem, t, x);
      HardwareSees(mem', t', x);
      LeafTranslates(pa, perm, x % 4096);
    }
  }

  // ---------- Ranges of pages ----------

  // The leaf of page w when page first goes to the frame of pa.
  function RangeLeaf(first: nat, w: nat, pa: u64, perm: nat): u64
    requires first <= w && pa + 4096 * (w - first) < MAXPA && perm < 1024
  {
    LeafPte(pa + 4096 * (w - first), perm)
  }

  // Page w after map_pages over the pages from first to end: as before, unless it is an unmapped page
  // of the range that has been mapped.
  ghost predicate MaybeMapped(was: u64, now: u64, w: nat, first: nat, end: nat, pa: u64, perm: nat)
    requires perm < 1024
  {
    now == was
    || (first <= w < end && pa + 4096 * (w - first) < MAXPA && !Bit(was, PTE_V) && now == RangeLeaf(first, w, pa, perm))
  }

  // The same when every unmapped page of the range has been mapped.
  ghost predicate SurelyMapped(was: u64, now: u64, w: nat, first: nat, end: nat, pa: u64, perm: nat)
    requires perm < 1024
  {
    if first <= w < end && !Bit(was, PTE_V) then
      pa + 4096 * (w - first) < MAXPA && now == RangeLeaf(first, w, pa, perm)
    else now == was
  }

  ghost predicate Partial(mem: Memory, t: Tables, mem': Memory, t': Tables, first: nat, end: nat, pa: u64, perm: nat)
    requires perm < 1024
  {
    forall w: nat :: MaybeMapped(EntryOf(mem, t, w), EntryOf(mem', t', w), w, first, end, pa, perm)
  }

  ghost predicate Full(mem: Memory, t: Tables, mem': Memory, t': Tables, first: nat, end: nat, pa: u64, perm: nat)
    requires perm < 1024
  {
    forall w: nat :: SurelyMapped(EntryOf(mem, t, w), EntryOf(mem', t', w), w, first, end, pa, perm)
  }

  lemma PartialStep(mem0: Memory, t0: Tables, mem: Memory, t: Tables, mem': Memory, t': Tables,
                    first: nat, c: nat, pa: u64, frame: u64, perm: nat, ok: bool)
    requires perm < 1024 && first <= c && frame == pa + 4096 * (c - first) && frame < MAXPA
    requires Partial(mem0, t0, mem, t, first, c, pa, perm)
    requires Entered(mem, t, mem', t', c, frame, perm, ok)
    requires ok ==> !Bit(EntryOf(mem, t, c), PTE_V)
    ensures Partial(mem0, t0, mem', t', first, c + 1, pa, perm)
  {
  }

  lemma FullStep(mem0: Memory, t0: Tables, mem: Memory, t: Tables, mem': Memory, t': Tables,
                 first: nat, c: nat, pa: u64, frame: u64, perm: nat, code: int)
    requires perm < 1024 && first <= c && frame == pa + 4096 * (c - first) && frame < MAXPA
    requires Full(mem0, t0, mem, t, first, c, pa, perm)
    requires Entered(mem, t, mem', t', c, frame, perm, code == 0)
    requires code == 0 ==> !Bit(EntryOf(mem, t, c), PTE_V)
    requires code == -2 ==> Bit(EntryOf(mem, t, c), PTE_V)
    requires code == 0 || code == -2
    ensures Full(mem0, t0, mem', t', first, c + 1, pa, perm)
  {
  }

  // What map_pages leaves for the pages from first to end.
  ghost predicate RangeMapped(mem: Memory, t: Tables, pool: set<nat>, mem': Memory, t': Tables, pool': set<nat>,
                              first: nat, end: nat, pa: u64, perm: nat)
    requires perm < 1024 && first < end
  {
    Partial(mem, t, mem', t', first, end, pa, perm)
    && (|pool| >= Missing(t, first, end) ==>
          Full(mem, t, mem', t', first, end, pa, perm) && AllTables(t, pool, t', pool', first, end))
  }

  // The invariant of map_pages after the pages up to c: `short` once a page has failed for want of a
  // table.
  ghost predicate Ranging(mem: Memory, t: Tables, pool: set<nat>, mem': Memory, t': Tables, pool': set<nat>,
                          first: nat, c: nat, need: nat, pa: u64, perm: nat, short: bool)
    requires perm < 1024
  {
    Partial(mem, t, mem', t', first, c, pa, perm)
    && (short ==> |pool| < need)
    && (!short ==> Full(mem, t, mem', t', first, c, pa, perm) && AllTables(t, pool, t', pool', first, c))
  }

  lemma RangeStart(mem: Memory, t: Tables, pool: set<nat>, first: nat, need: nat, pa: u64, perm: nat)
    requires perm < 1024
    ensures Ranging(mem, t, pool, mem, t, pool, first, first, need, pa, perm, false)
  {
  }

  lemma RangeDone(mem: Memory, t: Tables, pool: set<nat>, mem': Memory, t': Tables, pool': set<nat>,
                  first: nat, end: nat, need: nat, pa: u64, perm: nat, short: bool)
    requires perm < 1024 && first < end && need == Missing(t, first, end)
    requires Ranging(mem, t, pool, mem', t', pool', first, end, need, pa, perm, short)
    ensures RangeMapped(mem, t, pool, mem', t', pool', first, end, pa, perm)
  {
  }

  lemma RangeStep(mem0: Memory, t0: Tables, pool0: set<nat>, mem: Memory, t: Tables, pool: set<nat>,
                  mem': Memory, t': Tables, pool': set<nat>, first: nat, c: nat, end: nat, need: nat,
                  pa: u64, frame: u64, perm: nat, code: int, short: bool)
    returns (short': bool)
    requires perm < 1024 && first <= c < end && frame < MAXPA && need == Missing(t0, first, end)
    requires frame == pa + 4096 * (c - first)
    requires Ranging(mem0, t0, pool0, mem, t, pool, first, c, need, pa, perm, short)
    requires Entered(mem, t, mem', t', c, frame, perm, code == 0)
    requires code == 0 ==> !Bit(EntryOf(mem, t, c), PTE_V)
    requires code == -2 ==> Bit(EntryOf(mem, t, c), PTE_V)
    requires code == 0 || code == -1 || code == -2
    requires WalkResult(t, pool, t', pool', Region(c, 1), Region(c, 0), code != -1)
    ensures Ranging(mem0, t0, pool0, mem', t', pool', first, c + 1, need, pa, perm, short')
  {
    short' := short;
    PartialStep(mem0, t0, mem, t, mem', t', first, c, pa, frame, perm, code == 0);
    if !short {
      if code == -1 {
        RunsShort(t0, pool0, t, pool, t', pool', first, c, end);
        short' := true;
      } else {
        FullStep(mem0, t0, mem, t, mem', t', first, c, pa, frame, perm, code);
        TablesStep(t0, pool0, t, pool, t', pool', first, c);
      }
    }
  }

  // The region of page w that one table of this level covers: 1 GiB or 2 MiB.
  function Region(w: nat, level: nat): nat {
    if level == 1 then w / 0x4_0000 else w / 512
  }

  // Region x holds one of the pages from first to end.
  predicate Covered(x: nat, first: nat, end: nat, level: nat) {
    first < end && Region(first, level) <= x <= Region(end - 1, level)
  }

  // The regions of a range that have no table.
  ghost function Lacking(m: map<nat, nat>, first: nat, end: nat, level: nat): set<nat>
    requires first < end
  {
    set x: nat | Region(first, level) <= x <= Region(end - 1, level) && x !in m.Keys
  }

  // How many tables the pages of a range lack.
  ghost function Missing(t: Tables, first: nat, end: nat): nat
    requires first < end
  {
    |Lacking(t.l1, first, end, 1)| + |Lacking(t.l0, first, end, 0)|
  }

  // The keys of m' are those of m and the regions of a range.
  ghost predicate KeysCover(m: map<nat, nat>, m': map<nat, nat>, first: nat, end: nat, level: nat) {
    forall x: nat :: x in m' <==> x in m || Covered(x, first, end, level)
  }

  // The tables of a range have been added, each out of one page of the pool.
  ghost predicate AllTables(t: Tables, pool: set<nat>, t': Tables, pool': set<nat>, first: nat, end: nat) {
    KeysCover(t.l1, t'.l1, first, end, 1) && KeysCover(t.l0, t'.l0, first, end, 0)
    && |pool'| + |t'.l1.Keys| + |t'.l0.Keys| == |pool| + |t.l1.Keys| + |t.l0.Keys|
  }

  lemma RegionsOfPage(c: nat)
    ensures 4096 * c / 4096 == c && 4096 * c / 0x4000_0000 == c / 0x4_0000 && 4096 * c / 0x20_0000 == c / 512
  {
  }

  lemma KeysStep(m0: map<nat, nat>, m: map<nat, nat>, m': map<nat, nat>, first: nat, c: nat, level: nat)
    requires first <= c && KeysCover(m0, m, first, c, level) && m'.Keys == m.Keys + {Region(c, level)}
    ensures KeysCover(m0, m', first, c + 1, level)
  {
  }

  lemma TablesStep(t0: Tables, pool0: set<nat>, t: Tables, pool: set<nat>, t': Tables, pool': set<nat>,
                   first: nat, c: nat)
    requires first <= c && AllTables(t0, pool0, t, pool, first, c)
    requires WalkResult(t, pool, t', pool', Region(c, 1), Region(c, 0), true)
    ensures AllTables(t0, pool0, t', pool', first, c + 1)
  {
    KeysStep(t0.l1, t.l1, t'.l1, first, c, 1);
    KeysStep(t0.l0, t.l0, t'.l0, first, c, 0);
  }

  lemma SubsetSize(a: set<nat>, b: set<nat>)
    requires a <= b
    ensures |a| <= |b| && (a != b ==> |a| < |b|)
  {
    assert b == a + (b - a);
    assert |b| == |a| + |b - a|;
  }

  // Tables present after some pages of a range were there before or were lacking.
  lemma KeysInside(m0: map<nat, nat>, m: map<nat, nat>, m': map<nat, nat>, first: nat, c: nat, end: nat, level: nat)
    requires first <= c < end && KeysCover(m0, m, first, c, level)
    requires m'.Keys == m.Keys || m'.Keys == m.Keys + {Region(c, level)}
    ensures m'.Keys <= m0.Keys + Lacking(m0, first, end, level)
    ensures Region(c, level) !in m' ==> Region(c, level) in Lacking(m0, first, end, level)
  {
  }

  // A failed page means the pool was smaller than the number of missing tables.
  lemma RunsShort(t0: Tables, pool0: set<nat>, t: Tables, pool: set<nat>, t': Tables, pool': set<nat>,
                  first: nat, c: nat, end: nat)
    requires first <= c < end && AllTables(t0, pool0, t, pool, first, c)
    requires WalkResult(t, pool, t', pool', Region(c, 1), Region(c, 0), false)
    ensures |pool0| < Missing(t0, first, end)
  {
    KeysInside(t0.l1, t.l1, t'.l1, first, c, end, 1);
    KeysInside(t0.l0, t.l0, t'.l0, first, c, end, 0);
    ShortCount(t0.l1.Keys, Lacking(t0.l1, first, end, 1), t'.l1.Keys,
               t0.l0.Keys, Lacking(t0.l0, first, end, 0), t'.l0.Keys, Region(c, 0), |pool0|);
  }

  lemma ShortCount(a: set<nat>, more: set<nat>, b: set<nat>, a': set<nat>, more': set<nat>, b': set<nat>, k: nat,
                   n: nat)
    requires b <= a + more && b' <= a' + more' && k in more' && k !in b'
    requires |b| + |b'| == n + |a| + |a'|
    ensures n < |more| + |more'|
  {
    SubsetSize(b, a + more);
    SubsetSize(b', a' + more');
    SumSize(a, more);
    SumSize(a', more');
  }

  lemma SumSize(a: set<nat>, b: set<nat>)
    ensures |a + b| <= |a| + |b|
  {
  }

  // ---------- The hardware after map_pages ----------

  // Every unmapped page of the range goes to its frame, every other address where it went before.
  lemma RangeTranslates(mem: Memory, t: Tables, mem': Memory, t': Tables, first: nat, end: nat, pa: u64, perm: nat,
                        x: nat)
    requires TablesOk(mem, t) && TablesOk(mem', t') && perm < 1024 && x < VSPACE
    requires Full(mem, t, mem', t', first, end, pa, perm)
    ensures var w := x / 4096;
            if first <= w < end && !Bit(EntryOf(mem, t, w), PTE_V) then
              Translate(mem', t'.root, x)
              == if LeafPerm(perm) then Mapped(RoundDown(pa + 4096 * (w - first)) + x % 4096, WithV(perm))
                 else PageFault
            else Translate(mem', t'.root, x) == Translate(mem, t.root, x)
  {
    var w := x / 4096;
    HardwareSees(mem, t, x);
    HardwareSees(mem', t', x);
    assert SurelyMapped(EntryOf(mem, t, w), EntryOf(mem', t', w), w, first, end, pa, perm);
    if first <= w < end && !Bit(EntryOf(mem, t, w), PTE_V) {
      LeafTranslates(pa + 4096 * (w - first), perm, x % 4096);
    }
  }

  // ---------- Said of the addresses ----------

  // An address of the range that map_page accepts: below 2^38.
  predicate Wanted(va: nat, size: nat, y: nat) { va <= y < va + size && y < 0x40_0000_0000 }

  // One of them lies in piece x, of so many bytes, of the address space.
  ghost predicate Touches(va: nat, size: nat, piece: nat, x: nat)
    requires piece > 0
  {
    exists y: nat :: Wanted(va, size, y) && y / piece == x
  }

  // How many tables the addresses of a range lack: of 1 GiB, and of 2 MiB.
  ghost function Needed(t: Tables, va: nat, size: nat): nat {
    |set x: nat | x < 256 && Touches(va, size, 0x4000_0000, x) && x !in t.l1.Keys|
    + |set x: nat | x < 0x2_0000 && Touches(va, size, 0x20_0000, x) && x !in t.l0.Keys|
  }

  // What the hardware makes of x after map_pages with enough tables: if the page of x holds an address of the
  // range, and its last-level entry was not valid, x goes to its place in the frame as many pages from that of
  // pa as its page is from that of va; else it goes where it went before.
  ghost predicate MappedAt(was: Translation, now: Translation, x: nat, va: nat, size: nat, pa: nat, perm: nat,
                           entry: u64)
    requires perm < 1024
  {
    if Touches(va, size, 4096, x / 4096) && !Bit(entry, PTE_V) then
      if LeafPerm(perm) then
        now.Mapped? && now.pa == 4096 * (pa / 4096 + (x / 4096 - va / 4096)) + x % 4096 && now.flags == WithV(perm)
      else now == PageFault
    else now == was
  }

  lemma TouchedPages(va: nat, size: nat, w: nat)
    requires size > 0 && va < MAXVA
    ensures Touches(va, size, 4096, w) <==> va / 4096 <= w < EndPage(va, size)
  {
    if va / 4096 <= w < EndPage(va, size) {
      var y := if w == va / 4096 then va else 4096 * w;
      assert Wanted(va, size, y) && y / 4096 == w;
    }
  }

  lemma TouchedRegion(va: nat, size: nat, level: nat, x: nat)
    requires size > 0 && va < MAXVA && level < 2
    ensures var piece := if level == 1 then 0x4000_0000 else 0x20_0000;
            Touches(va, size, piece, x) <==> Covered(x, va / 4096, EndPage(va, size), level)
  {
    var piece := if level == 1 then 0x4000_0000 else 0x20_0000;
    var first, end := va / 4096, EndPage(va, size);
    if Covered(x, first, end, level) {
      var w := if Region(first, level) == x then first else x * (piece / 4096);
      RegionsOfPage(w);
      TouchedPages(va, size, w);
      var y: nat :| Wanted(va, size, y) && y / 4096 == w;
      PageRegion(y);
      assert y / piece == x;
    }
    forall y: nat | Wanted(va, size, y) ensures Covered(y / piece, first, end, level) {
      PageRegion(y);
      TouchedPages(va, size, y / 4096);
    }
  }

  lemma PageRegion(y: nat)
    ensures y / 0x4000_0000 == y / 4096 / 0x4_0000 && y / 0x20_0000 == y / 4096 / 512
  {
  }

  lemma NeededIs(t: Tables, va: nat, size: nat)
    requires size > 0 && va < MAXVA && va / 4096 < EndPage(va, size)
    ensures Needed(t, va, size) == Missing(t, va / 4096, EndPage(va, size))
  {
    var first, end := va / 4096, EndPage(va, size);
    forall x: nat ensures x < 256 && Touches(va, size, 0x4000_0000, x) <==> Covered(x, first, end, 1) {
      TouchedRegion(va, size, 1, x);
    }
    forall x: nat ensures x < 0x2_0000 && Touches(va, size, 0x20_0000, x) <==> Covered(x, first, end, 0) {
      TouchedRegion(va, size, 0, x);
    }
    assert (set x: nat | x < 256 && Touches(va, size, 0x4000_0000, x) && x !in t.l1.Keys)
        == Lacking(t.l1, first, end, 1);
    assert (set x: nat | x < 0x2_0000 && Touches(va, size, 0x20_0000, x) && x !in t.l0.Keys)
        == Lacking(t.l0, first, end, 0);
  }

  lemma AddressSeen(mem: Memory, t: Tables, mem': Memory, t': Tables, va: u64, size: u64, pa: u64, perm: nat, x: nat)
    requires TablesOk(mem, t) && TablesOk(mem', t') && perm < 1024 && size > 0 && va < MAXVA && x < VSPACE
    requires Partial(mem, t, mem', t', va / 4096, EndPage(va, size), pa, perm)
    ensures Translate(mem', t'.root, x) == Translate(mem, t.root, x)
            || MappedAt(Translate(mem, t.root, x), Translate(mem', t'.root, x), x, va, size, pa, perm,
                        EntryOf(mem, t, x / 4096))
    ensures Full(mem, t, mem', t', va / 4096, EndPage(va, size), pa, perm) ==>
              MappedAt(Translate(mem, t.root, x), Translate(mem', t'.root, x), x, va, size, pa, perm,
                       EntryOf(mem, t, x / 4096))
  {
    var w := x / 4096;
    HardwareSees(mem, t, x);
    HardwareSees(mem', t', x);
    assert MaybeMapped(EntryOf(mem, t, w), EntryOf(mem', t', w), w, va / 4096, EndPage(va, size), pa, perm);
    assert Full(mem, t, mem', t', va / 4096, EndPage(va, size), pa, perm) ==>
             SurelyMapped(EntryOf(mem, t, w), EntryOf(mem', t', w), w, va / 4096, EndPage(va, size), pa, perm);
    EntrySeen(EntryOf(mem, t, w), EntryOf(mem', t', w), x, va, size, pa, perm);
  }

  lemma EntrySeen(was: u64, now: u64, x: nat, va: u64, size: u64, pa: u64, perm: nat)
    requires perm < 1024 && size > 0 && va < MAXVA
    requires MaybeMapped(was, now, x / 4096, va / 4096, EndPage(va, size), pa, perm)
    ensures OfEntry(now, x % 4096) == OfEntry(was, x % 4096)
            || MappedAt(OfEntry(was, x % 4096), OfEntry(now, x % 4096), x, va, size, pa, perm, was)
    ensures SurelyMapped(was, now, x / 4096, va / 4096, EndPage(va, size), pa, perm) ==>
              MappedAt(OfEntry(was, x % 4096), OfEntry(now, x % 4096), x, va, size, pa, perm, was)
  {
    TouchedPages(va, size, x / 4096);
    var k := x / 4096 - va / 4096;
    if k >= 0 && pa + 4096 * k < MAXPA { LeafSeen(pa, k, perm, x % 4096); }
  }

  lemma LeafSeen(pa: u64, k: nat, perm: nat, o: nat)
    requires pa + 4096 * k < MAXPA && perm < 1024 && o < 4096
    ensures OfEntry(LeafPte(pa + 4096 * k, perm), o)
         == if LeafPerm(perm) then Mapped(4096 * (pa / 4096 + k) + o, WithV(perm)) else PageFault
    ensures Bit(LeafPte(pa + 4096 * k, perm), PTE_V)
  {
    LeafTranslates(pa + 4096 * k, perm, o);
    FrameAt(pa, k);
  }

  lemma FrameAt(pa: nat, k: nat)
    ensures RoundDown(pa + 4096 * k) == 4096 * (pa / 4096 + k)
  {
  }

  lemma RangeSeen(mem: Memory, t: Tables, pool: set<nat>, mem': Memory, t': Tables, pool': set<nat>,
                  va: u64, size: u64, pa: u64, perm: nat)
    requires TablesOk(mem, t) && TablesOk(mem', t') && perm < 1024
    requires size > 0 && va < MAXVA && va / 4096 < EndPage(va, size)
    requires RangeMapped(mem, t, pool, mem', t', pool', va / 4096, EndPage(va, size), pa, perm)
    ensures forall x: nat :: x < VSPACE ==>
              Translate(mem', t'.root, x) == Translate(mem, t.root, x)
              || MappedAt(Translate(mem, t.root, x), Translate(mem', t'.root, x), x, va, size, pa, perm,
                          EntryOf(mem, t, x / 4096))
    ensures |pool| >= Needed(t, va, size) ==>
              forall x: nat :: x < VSPACE ==>
                MappedAt(Translate(mem, t.root, x), Translate(mem', t'.root, x), x, va, size, pa, perm,
                         EntryOf(mem, t, x / 4096))
  {
    NeededIs(t, va, size);
    forall x: nat | x < VSPACE
      ensures Translate(mem', t'.root, x) == Translate(mem, t.root, x)
              || MappedAt(Translate(mem, t.root, x), Translate(mem', t'.root, x), x, va, size, pa, perm,
                          EntryOf(mem, t, x / 4096))
      ensures |pool| >= Needed(t, va, size) ==>
                MappedAt(Translate(mem, t.root, x), Translate(mem', t'.root, x), x, va, size, pa, perm,
                         EntryOf(mem, t, x / 4096))
    {
      AddressSeen(mem, t, mem', t', va, size, pa, perm, x);
    }
  }

  // With starts that agree within a page every address of the range moves by pa - va.
  lemma ConstantOffset(was: Translation, now: Translation, x: nat, va: nat, size: nat, pa: nat, perm: nat, entry: u64)
    requires perm < 1024 && LeafPerm(perm) && va % 4096 == pa % 4096
    requires MappedAt(was, now, x, va, size, pa, perm, entry)
    ensures Wanted(va, size, x) && !Bit(entry, PTE_V) ==>
              now.Mapped? && now.pa == x - va + pa && now.flags == WithV(perm)
  {
    assert Wanted(va, size, x) ==> Touches(va, size, 4096, x / 4096);
  }

  // ---------- The kernel's table ----------

  const RW := 6
  const RWX := 14

  // Where kernel_mapping sends an address.
  function KernelMap(x: nat): Translation {
    if UART <= x < UART + PAGE_SIZE || VIRTIO0 <= x < VIRTIO0 + PAGE_SIZE || PLIC_BASE <= x < PLIC_BASE + PLIC_SIZE
    then Mapped(x, RW + PTE_V)
    else if KERNEL_START_ADDR <= x < KERNEL_END_ADDR then Mapped(x, RWX + PTE_V)
    else PageFault
  }

  // UART, disk and PLIC are readable and writable, the kernel executable too; user code gets at none of
  // them, and nothing else is mapped.
  lemma KernelPermissions(x: nat)
    ensures KernelMap(x).Mapped?
            <==> 0x1000_0000 <= x < 0x1000_2000 || 0x0c00_0000 <= x < 0x0c40_0000 || 0x8000_0000 <= x < 0x8800_0000
    ensures KernelMap(x).Mapped? ==>
              var flags := KernelMap(x).flags;
              KernelMap(x).pa == x
              && flags % 2 == 1 && flags / 2 % 2 == 1 && flags / 4 % 2 == 1
              && (flags / 8 % 2 == 1 <==> 0x8000_0000 <= x < 0x8800_0000)
              && flags / 16 == 0
  {
  }

  // The entry of page w after the first n calls of kernel_mapping.
  function KernelEntry(n: nat, w: nat): u64 {
    if n >= 1 && w == 0x10000 then LeafPte(UART, RW)
    else if n >= 2 && w == 0x10001 then LeafPte(VIRTIO0, RW)
    else if n >= 3 && 0xc000 <= w < 0xc400 then LeafPte(4096 * w, RW)
    else if n >= 4 && 0x80000 <= w < 0x88000 then LeafPte(4096 * w, RWX)
    else 0
  }

  ghost predicate EntriesAre(mem: Memory, t: Tables, n: nat) {
    forall w: nat :: EntryOf(mem, t, w) == KernelEntry(n, w)
  }

  lemma KernelTranslates(mem: Memory, t: Tables, x: nat)
    requires TablesOk(mem, t) && EntriesAre(mem, t, 4) && x < VSPACE
    ensures Translate(mem, t.root, x) == KernelMap(x)
  {
    var w, o := x / 4096, x % 4096;
    HardwareSees(mem, t, x);
    assert EntryOf(mem, t, w) == KernelEntry(4, w);
    KernelEntryMap(w, o);
  }

  lemma KernelEntryMap(w: nat, o: nat)
    requires o < 4096
    ensures OfEntry(KernelEntry(4, w), o) == KernelMap(4096 * w + o)
  {
    if w == 0x10000 || w == 0x10001 || 0xc000 <= w < 0xc400 {
      KernelLeaf(w, RW, o);
    } else if 0x80000 <= w < 0x88000 {
      KernelLeaf(w, RWX, o);
    }
  }

  lemma KernelLeaf(w: nat, perm: nat, o: nat)
    requires w < 0x88000 && (perm == RW || perm == RWX) && o < 4096
    ensures OfEntry(LeafPte(4096 * w, perm), o) == Mapped(4096 * w + o, perm + PTE_V)
  {
    LeafSeen(0, w, perm, o);
    assert LeafPerm(RW) && LeafPerm(RWX) && WithV(RW) == RW + PTE_V && WithV(RWX) == RWX + PTE_V;
  }

  // A page fails for want of a table only when at most one page was left.
  lemma PoolLasts(t: Tables, pool: set<nat>, t': Tables, pool': set<nat>, i: nat, k: nat)
    requires WalkResult(t, pool, t', pool', i, k, false)
    ensures |pool| <= 1
  {
  }

  lemma AfterPage(mem: Memory, t: Tables, pool: set<nat>, mem': Memory, t': Tables, pool': set<nat>,
                  n: nat, v: nat, pa: u64, perm: nat, i: nat, k: nat, r: int)
    requires EntriesAre(mem, t, n) && KernelEntry(n, v) == 0 && |pool| >= 2 && pa < MAXPA && perm < 1024
    requires Entered(mem, t, mem', t', v, pa, perm, r == 0)
    requires r == -2 ==> Bit(EntryOf(mem, t, v), PTE_V)
    requires WalkResult(t, pool, t', pool', i, k, r != -1) && (r == 0 || r == -1 || r == -2)
    ensures r == 0 && Extended(t, pool, t', pool', 0, i, k)
    ensures forall w: nat :: EntryOf(mem', t', w) == if w == v then LeafPte(pa, perm) else KernelEntry(n, w)
  {
    if r == -1 { PoolLasts(t, pool, t', pool', i, k); }
    assert EntryOf(mem, t, v) == 0;
    forall w: nat
      ensures EntryOf(mem', t', w) == if w == v then LeafPte(pa, perm) else KernelEntry(n, w)
    {
      assert EntryOf(mem, t, w) == KernelEntry(n, w);
    }
  }

  lemma AfterUart(mem: Memory, t: Tables, pool: set<nat>, mem': Memory, t': Tables, pool': set<nat>, r: int)
    requires t.l1 == map[] && t.l0 == map[] && |pool| >= KERNEL_TABLES
    requires Entered(mem, t, mem', t', 0x10000, UART, RW, r == 0)
    requires r == -2 ==> Bit(EntryOf(mem, t, 0x10000), PTE_V)
    requires WalkResult(t, pool, t', pool', 0, 128, r != -1) && (r == 0 || r == -1 || r == -2)
    ensures EntriesAre(mem', t', 1) && t'.l1.Keys == {0} && t'.l0.Keys == {128} && |pool'| == |pool| - 2
  {
    assert EntriesAre(mem, t, 0);
    AfterPage(mem, t, pool, mem', t', pool', 0, 0x10000, UART, RW, 0, 128, r);
  }

  lemma AfterDisk(mem: Memory, t: Tables, pool: set<nat>, mem': Memory, t': Tables, pool': set<nat>, r: int)
    requires EntriesAre(mem, t, 1) && t.l1.Keys == {0} && t.l0.Keys == {128} && |pool| >= KERNEL_TABLES - 2
    requires Entered(mem, t, mem', t', 0x10001, VIRTIO0, RW, r == 0)
    requires r == -2 ==> Bit(EntryOf(mem, t, 0x10001), PTE_V)
    requires WalkResult(t, pool, t', pool', 0, 128, r != -1) && (r == 0 || r == -1 || r == -2)
    ensures EntriesAre(mem', t', 2) && t'.l1.Keys == {0} && t'.l0.Keys == {128} && |pool'| == |pool|
  {
  }

  // A range whose pages were unmapped.
  lemma AfterRange(mem: Memory, t: Tables, mem': Memory, t': Tables, n: nat, first: nat, end: nat, pa: u64, perm: nat)
    requires EntriesAre(mem, t, n) && perm < 1024 && first <= end && pa == 4096 * first && 4096 * end < MAXPA
    requires forall w :: first <= w < end ==> KernelEntry(n, w) == 0
    requires Full(mem, t, mem', t', first, end, pa, perm)
    ensures forall w: nat :: EntryOf(mem', t', w)
                          == if first <= w < end then LeafPte(4096 * w, perm) else KernelEntry(n, w)
  {
  }

  lemma {:induction false} IntervalSize(lo: nat, hi: nat, s: set<nat>)
    requires lo <= hi && forall x: nat :: x in s <==> lo <= x < hi
    ensures |s| == hi - lo
    decreases hi
  {
    if lo == hi {
      assert s == {};
    } else {
      IntervalSize(lo, hi - 1, s - {hi - 1});
    }
  }

  lemma AfterPlic(mem: Memory, t: Tables, pool: set<nat>, mem': Memory, t': Tables, pool': set<nat>)
    requires EntriesAre(mem, t, 2) && t.l1.Keys == {0} && t.l0.Keys == {128} && |pool| >= KERNEL_TABLES - 2
    requires RangeMapped(mem, t, pool, mem', t', pool', 0xc000, 0xc400, PLIC_BASE, RW)
    ensures EntriesAre(mem', t', 3) && t'.l1.Keys == {0} && t'.l0.Keys == {128, 96, 97} && |pool'| == |pool| - 2
  {
    assert Lacking(t.l1, 0xc000, 0xc400, 1) == {};
    assert Lacking(t.l0, 0xc000, 0xc400, 0) == {96, 97};
    KeysAre(t.l1, t'.l1, 0xc000, 0xc400, 1, {0});
    KeysAre(t.l0, t'.l0, 0xc000, 0xc400, 0, {128, 96, 97});
    AfterRange(mem, t, mem', t', 2, 0xc000, 0xc400, PLIC_BASE, RW);
  }

  lemma KeysAre(m: map<nat, nat>, m': map<nat, nat>, first: nat, end: nat, level: nat, s: set<nat>)
    requires KeysCover(m, m', first, end, level)
    requires forall x: nat :: x in s <==> x in m.Keys || Covered(x, first, end, level)
    ensures m'.Keys == s
  {
  }

  lemma AfterKernel(mem: Memory, t: Tables, pool: set<nat>, mem': Memory, t': Tables, pool': set<nat>)
    requires EntriesAre(mem, t, 3) && t.l1.Keys == {0} && t.l0.Keys == {128, 96, 97} && |pool| >= KERNEL_TABLES - 4
    requires RangeMapped(mem, t, pool, mem', t', pool', 0x80000, 0x88000, KERNEL_START_ADDR, RWX)
    ensures EntriesAre(mem', t', 4) && |pool'| == |pool| - 65
  {
    KernelLacks(t);
    KernelTables(t, pool, t', pool');
    AfterRange(mem, t, mem', t', 3, 0x80000, 0x88000, KERNEL_START_ADDR, RWX);
  }

  lemma KernelLacks(t: Tables)
    requires t.l1.Keys == {0} && t.l0.Keys == {128, 96, 97}
    ensures Lacking(t.l1, 0x80000, 0x88000, 1) == {2} && |Lacking(t.l0, 0x80000, 0x88000, 0)| == 64
    ensures forall x :: x in Lacking(t.l0, 0x80000, 0x88000, 0) <==> 1024 <= x < 1088
  {
    assert Region(0x80000, 1) == 2 && Region(0x87fff, 1) == 2;
    assert Region(0x80000, 0) == 1024 && Region(0x87fff, 0) == 1087;
    IntervalSize(1024, 1088, Lacking(t.l0, 0x80000, 0x88000, 0));
  }

  lemma KernelTables(t: Tables, pool: set<nat>, t': Tables, pool': set<nat>)
    requires t.l1.Keys == {0} && t.l0.Keys == {128, 96, 97}
    requires AllTables(t, pool, t', pool', 0x80000, 0x88000)
    ensures |pool'| == |pool| - 65
  {
    KernelLacks(t);
    var more := Lacking(t.l0, 0x80000, 0x88000, 0);
    KeysAre(t.l1, t'.l1, 0x80000, 0x88000, 1, {0, 2});
    KeysAre(t.l0, t'.l0, 0x80000, 0x88000, 0, t.l0.Keys + more);
  }
}
