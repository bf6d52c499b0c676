// The bit arithmetic of vm.h on unsigned words, and the address translation of the hardware:
// RISC-V Privileged Architecture 20211203, section 4.4 with the algorithm of section 4.3.2.
// A right shift by k is division by 2^k, a mask of k low bits is the remainder modulo 2^k, and
// or-ing bits into zero bits is addition.

module Sv39 {
  type u64 = x: int | 0 <= x < 0x1_0000_0000_0000_0000

  const PAGE_SIZE := 4096
  const PT_ENTRY_COUNT := 512
  const MAXVA := 0x40_0000_0000
  // Physical addresses have 56 bits, virtual ones 39.
  const MAXPA := 0x100_0000_0000_0000
  const VSPACE := 0x80_0000_0000

  const PTE_V := 1
  const PTE_R := 2
  const PTE_W := 4
  const PTE_X := 8

  function Bit(x: nat, weight: nat): bool
    requires weight > 0
  {
    x / weight % 2 == 1
  }

  // ---------- Macros of vm.h ----------

  function RoundDown(a: nat): (r: nat)
    ensures r <= a < r + PAGE_SIZE && r % PAGE_SIZE == 0
  {
    a - a % PAGE_SIZE
  }

  function PaToPte(pa: u64): (pte: u64) {
    pa / 4096 * 1024
  }

  function PteToPa(pte: u64): (pa: u64) {
    pte / 1024 * 4096 % 0x1_0000_0000_0000_0000
  }

  function Weight(level: nat): (w: nat)
    ensures w > 0
  {
    if level == 0 then 4096 else if level == 1 then 0x20_0000 else 0x4000_0000
  }

  function Index(level: nat, va: nat): (i: nat)
    ensures i < PT_ENTRY_COUNT
  {
    va / Weight(level) % 512
  }

  // A 64-bit table entry survives the trip through its page number.
  lemma PteRoundTrip(pa: u64, flags: nat)
    requires pa < MAXPA && pa % PAGE_SIZE == 0 && flags < 1024
    ensures PaToPte(pa) + flags < 0x40_0000_0000_0000
    ensures PteToPa(PaToPte(pa) + flags) == pa
    ensures (PaToPte(pa) + flags) % 1024 == flags
  {
  }

  // The three indices and the offset determine the address.
  lemma IndicesDetermine(va: nat)
    requires va < VSPACE
    ensures va == Index(2, va) * 0x4000_0000 + Index(1, va) * 0x20_0000 + Index(0, va) * 4096 + va % 4096
    ensures Index(2, va) == va / 4096 / 0x4_0000
    ensures Index(1, va) == va / 4096 / 512 % 512 && Index(0, va) == va / 4096 % 512
    ensures va / 4096 / 512 == Index(2, va) * 512 + Index(1, va)
  {
  }

  // ---------- Memory ----------

  // Physical memory by page: a page-aligned base and its 512 words.
  type Words = s: seq<u64> | |s| == PT_ENTRY_COUNT witness seq(PT_ENTRY_COUNT, _ => 0)
  type Memory = map<nat, Words>

  function Load(mem: Memory, page: nat, i: nat): u64
    requires i < PT_ENTRY_COUNT
  {
    if page in mem then mem[page][i] else 0
  }

  function ZeroPage(): Words {
    seq(PT_ENTRY_COUNT, _ => 0)
  }

  // ---------- The hardware walk ----------

  // Where an access goes: to a physical address with the flags of its leaf entry, or nowhere.
  datatype Translation = PageFault | Mapped(pa: nat, flags: nat)

  // Steps 2 to 8 at one level, for the table at page a.
  function Walk(mem: Memory, a: nat, va: nat, level: nat): Translation
    requires level <= 2
    decreases level
  {
    var pte := Load(mem, a, Index(level, va));
    var ppn := pte / 1024 % 0x1000_0000_0000;
    // Step 3: invalid, write-only, or with a reserved bit.
    if !Bit(pte, 1) || (!Bit(pte, 2) && Bit(pte, 4)) || pte >= 0x40_0000_0000_0000 then PageFault
    // Step 4 on: a leaf.
    else if Bit(pte, 2) || Bit(pte, 8) then
      // Step 6: misaligned superpage.
      if ppn * 4096 % Weight(level) != 0 then PageFault
      // Step 8.
      else Mapped(ppn * 4096 + va % Weight(level), pte % 1024)
    // Step 4: a pointer, whose U, A and D bits are reserved.
    else if Bit(pte, 16) || Bit(pte, 64) || Bit(pte, 128) then PageFault
    else if level == 0 then PageFault
    else Walk(mem, ppn * 4096, va, level - 1)
  }

  // Translation of a 39-bit virtual address.
  function Translate(mem: Memory, root: nat, va: nat): Translation {
    Walk(mem, root, va, 2)
  }

  // ---------- Leaf entries ----------

  // perm | PTE_V.
  function WithV(perm: nat): nat {
    if perm % 2 == 1 then perm else perm + 1
  }

  // PaToPte(pa) | perm | PTE_V.
  function LeafPte(pa: u64, perm: nat): (pte: u64)
    requires perm < 1024 && pa < MAXPA
  {
    PaToPte(pa) + WithV(perm)
  }

  // What the hardware makes of a last-level entry.
  function OfEntry(pte: u64, offset: nat): Translation {
    if !Bit(pte, 1) || (!Bit(pte, 2) && Bit(pte, 4)) || pte >= 0x40_0000_0000_0000 then PageFault
    else if Bit(pte, 2) || Bit(pte, 8) then Mapped(pte / 1024 % 0x1000_0000_0000 * 4096 + offset, pte % 1024)
    else PageFault
  }

  // Permissions the hardware takes for a leaf: readable or executable, and writable only if readable.
  predicate LeafPerm(perm: nat) {
    (Bit(perm, 2) || Bit(perm, 8)) && (Bit(perm, 4) ==> Bit(perm, 2))
  }

  lemma FlagBits(pte: u64, flags: nat)
    requires flags < 1024 && pte % 1024 == flags
    ensures Bit(pte, 1) == Bit(flags, 1) && Bit(pte, 2) == Bit(flags, 2) && Bit(pte, 4) == Bit(flags, 4)
    ensures Bit(pte, 8) == Bit(flags, 8) && Bit(pte, 16) == Bit(flags, 16)
    ensures Bit(pte, 64) == Bit(flags, 64) && Bit(pte, 128) == Bit(flags, 128)
  {
    var q := pte / 1024;
    EvenBlocks(512 * q, flags, 1);
    EvenBlocks(256 * q, flags, 2);
    EvenBlocks(128 * q, flags, 4);
    EvenBlocks(64 * q, flags, 8);
    EvenBlocks(32 * q, flags, 16);
    EvenBlocks(8 * q, flags, 64);
    EvenBlocks(4 * q, flags, 128);
  }

  // Adding a multiple of twice its weight leaves a bit alone.
  lemma EvenBlocks(m: nat, f: nat, w: nat)
    requires w > 0
    ensures Bit(2 * m * w + f, w) == Bit(f, w)
  {
    AddDiv(2 * m, f, w);
  }

  lemma AddDiv(m: nat, f: nat, w: nat)
    requires w > 0
    ensures (m * w + f) / w == m + f / w
  {
    var d, r := f / w, f % w;
    assert m * w + f == (m + d) * w + r;
    DivUnique(m * w + f, m + d, r, w);
  }

  lemma DivUnique(x: nat, d: nat, r: nat, w: nat)
    requires w > 0 && r < w && x == d * w + r
    ensures x / w == d
  {
    var e := x / w;
    assert x == e * w + x % w;
    if e < d { MulGap(e, d, w); assert false; }
    if d < e { MulGap(d, e, w); assert false; }
  }

  lemma MulGap(a: nat, b: nat, w: nat)
    requires a < b
    ensures a * w + w <= b * w
  {
    assert (b - a - 1) * w >= 0;
    assert b * w == a * w + w + (b - a - 1) * w;
  }

  // The flags are V and the permissions, bit for bit.
  lemma OnlyV(perm: nat, weight: nat)
    requires weight > 1 && weight % 2 == 0
    ensures WithV(perm) % 2 == 1 && Bit(WithV(perm), weight) == Bit(perm, weight)
  {
    var half := weight / 2;
    assert weight == 2 * half;
    HalfOf(WithV(perm), half);
    HalfOf(perm, half);
  }

  lemma HalfOf(x: nat, half: nat)
    requires half > 0
    ensures x / (2 * half) == x / 2 / half
  {
    var q, r := x / 2 / half, x / 2 % half;
    assert x / 2 == q * half + r;
    DivUnique(x, q, 2 * r + x % 2, 2 * half);
  }

  lemma WithVBits(perm: nat)
    ensures var p := WithV(perm);
            Bit(p, 1) && Bit(p, 2) == Bit(perm, 2) && Bit(p, 4) == Bit(perm, 4) && Bit(p, 8) == Bit(perm, 8)
  {
  }

  lemma LeafFields(pa: u64, perm: nat)
    requires pa < MAXPA && perm < 1024
    ensures var pte := LeafPte(pa, perm);
            pte / 1024 % 0x1000_0000_0000 * 4096 == RoundDown(pa) && pte % 1024 == WithV(perm)
            && pte < 0x40_0000_0000_0000
  {
    PteRoundTrip(RoundDown(pa), WithV(perm));
  }

  // The entry map_page stores translates to the frame exactly when its permissions are a leaf's.
  lemma LeafTranslates(pa: u64, perm: nat, offset: nat)
    requires pa < MAXPA && perm < 1024
    ensures OfEntry(LeafPte(pa, perm), offset)
         == if LeafPerm(perm) then Mapped(RoundDown(pa) + offset, WithV(perm)) else PageFault
    ensures Bit(LeafPte(pa, perm), 1)
  {
    LeafFields(pa, perm);
    FlagBits(LeafPte(pa, perm), WithV(perm));
    WithVBits(perm);
  }

  // A pointer entry carries V only and leads to its page.
  lemma PointerEntry(page: u64)
    requires page < MAXPA && page % PAGE_SIZE == 0
    ensures var pte := PaToPte(page) + PTE_V;
            Bit(pte, 1) && !Bit(pte, 2) && !Bit(pte, 4) && !Bit(pte, 8) && !Bit(pte, 16) && !Bit(pte, 64)
            && !Bit(pte, 128) && pte < 0x40_0000_0000_0000
            && pte / 1024 % 0x1000_0000_0000 * 4096 == page && PteToPa(pte) == page
  {
    PteRoundTrip(page, 1);
    FlagBits(PaToPte(page) + 1, 1);
  }
}
