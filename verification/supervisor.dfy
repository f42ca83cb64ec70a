/**
 The page table a supervisor kernel starts with (supervisor_vm_init, bbl/vm.c), built in physical memory,
 and what the Sv39 walk of the privileged architecture finds in it.
 */
module SupervisorVm {
  import opened Words
  import opened PageTable

  const SUPERPAGE: int := 0x20_0000     // 2^21
  const MEGAPAGE: int := 0x4000_0000    // 2^30

  // ---------------------------------------------------------------- the hardware walk

  datatype Translation = Fault | To(paddr: nat, perm: nat)

  /** Bits 63 to 39 are those of bit 38. */
  predicate Canonical(va: u64) {
    va < 0x40_0000_0000 || va >= TWO64 - 0x40_0000_0000
  }

  /** Bytes below an entry at this level. */
  function Reach(level: nat): (r: nat)
    requires level <= 2
    ensures r > 0
  {
    if level == 0 then PGSIZE else if level == 1 then SUPERPAGE else MEGAPAGE
  }

  lemma ReachMeans(level: nat)
    requires level <= 2
    ensures Reach(level) == PGSIZE * Span(level)
  {
  }

  /** Section 4.6 of the privileged architecture 1.7: a leaf above the last level maps a superpage. */
  function HardwareWalk(m: seq<nat>, page: nat, level: nat, va: u64): Translation
    requires level <= 2
    decreases level
  {
    var at := page * ENTRIES + PtIdx(va, level);
    if at >= |m| || !IsValid(m[at]) then Fault
    else if IsTable(m[at]) then
      if level == 0 then Fault else HardwareWalk(m, PtePpn(m[at]), level - 1, va)
    else To(PtePpn(m[at]) * PGSIZE / Reach(level) * Reach(level) + va % Reach(level), m[at] % 0x20)
  }

  function Translate(m: seq<nat>, root: nat, va: u64): Translation {
    if Canonical(va) then HardwareWalk(m, root, 2, va) else Fault
  }

  // ---------------------------------------------------------------- the layout

  /** Where the kernel is linked (user), where it lies (free), and how much memory there is. */
  datatype Layout = Layout(user: nat, after: nat, free: nat, memory: nat, sbiPages: nat) {
    /** What the loader sets up: superpage alignment of both ends, and a canonical upper-half kernel. */
    predicate Ok() {
      && user % SUPERPAGE == 0 && free % SUPERPAGE == 0 && free > 0 && memory < TWO64
      && TWO64 - 0x40_0000_0000 <= user && user + free <= TWO64
      && after % PGSIZE == 0 && user <= after && after - user + free < TWO64
      && sbiPages <= ENTRIES
    }

    /** The distance from a kernel address to its physical address, modulo 2^64. */
    function Bias(): u64 {
      (free - user) % TWO64
    }

    /** mem_size afterwards. */
    function Usable(): nat
      requires user + free <= TWO64
    {
      (if memory < TWO64 - free - user then memory else TWO64 - free - user) / SUPERPAGE * SUPERPAGE
    }

    /** Middle-level tables needed to reach from user to the top. */
    function Middles(): nat
      requires user < TWO64
    {
      (TWO64 - user - 1) / MEGAPAGE + 1
    }

    /** The first address the middle tables cover. */
    function Base(): nat
      requires 0 < user < TWO64 && TWO64 - 0x40_0000_0000 <= user
    {
      TWO64 - Middles() * MEGAPAGE
    }

    function SbiPage(): nat
      requires user <= after
    {
      (after - user + free) / PGSIZE
    }

    function MiddlePage(): nat
      requires user <= after
    {
      SbiPage() + 1
    }

    function RootPage(): nat
      requires user <= after && user < TWO64
    {
      MiddlePage() + Middles()
    }

    /** Entries of the middle tables below that of the first kernel superpage. */
    function First(): nat {
      user / SUPERPAGE % ENTRIES
    }

    /** Kernel superpages. */
    function Supers(): nat
      requires user + free <= TWO64
    {
      if Usable() <= free then 0 else (Usable() - free) / SUPERPAGE
    }
  }

  lemma MiddlesFew(l: Layout)
    requires l.Ok()
    ensures 0 < l.Middles() <= 256 && TWO64 - l.Middles() * MEGAPAGE <= l.user < TWO64 - l.Middles() * MEGAPAGE + MEGAPAGE
  {
  }

  /** The first kernel superpage is where `l2_idx` says. */
  lemma FirstPlace(l: Layout)
    requires l.Ok()
    ensures l.user == l.Base() + l.First() * SUPERPAGE && l.First() < ENTRIES
  {
    MiddlesFew(l);
    var n, r := l.Middles(), l.user - l.Base();
    var q := r / SUPERPAGE;
    DivUnique(l.user, SUPERPAGE, 0x800_0000_0000 - n * ENTRIES + q, r % SUPERPAGE);
    DivUnique(l.user / SUPERPAGE, ENTRIES, 0x4_0000_0000 - n, q);
  }

  /** The kernel's superpages end before the last entry, which stays free for the SBI. */
  lemma KernelEndsBelow(l: Layout)
    requires l.Ok()
    ensures l.First() + l.Supers() < l.Middles() * ENTRIES
  {
    MiddlesFew(l);
    FirstPlace(l);
  }

  // ---------------------------------------------------------------- the table

  function SbiEntry(l: Layout, i: nat): nat {
    if i + l.sbiPages >= ENTRIES then KernelPte(i + l.sbiPages - ENTRIES, SRX) else 0
  }

  /** Entry j of the middle tables once `n` superpages are in. */
  function MiddleEntry(l: Layout, n: nat, j: nat): nat {
    if l.First() <= j < l.First() + n then KernelPte(l.free / PGSIZE + (j - l.First()) * ENTRIES, SRWX) else 0
  }

  function RootEntry(l: Layout, i: nat): nat
    requires l.user <= l.after && l.user < TWO64
  {
    if i + l.Middles() >= ENTRIES then PtdCreate(l.MiddlePage() + i + l.Middles() - ENTRIES) else 0
  }

  /** The word i words into a page, or into the pages from it on. */
  function Word(m: seq<nat>, page: nat, i: nat): nat {
    if page * ENTRIES + i < |m| then m[page * ENTRIES + i] else 0
  }

  ghost predicate SbiBuilt(m: seq<nat>, l: Layout)
    requires l.Ok()
  {
    forall i :: 0 <= i < ENTRIES ==> Word(m, l.SbiPage(), i) == SbiEntry(l, i)
  }

  ghost predicate MiddleBuilt(m: seq<nat>, l: Layout)
    requires l.Ok()
  {
    forall j :: 0 <= j < l.Middles() * ENTRIES ==>
      Word(m, l.MiddlePage(), j) ==
      if j == l.Middles() * ENTRIES - 1 then PtdCreate(l.SbiPage()) else MiddleEntry(l, l.Supers(), j)
  }

  ghost predicate RootBuilt(m: seq<nat>, l: Layout)
    requires l.Ok()
  {
    forall i :: 0 <= i < ENTRIES ==> Word(m, l.RootPage(), i) == RootEntry(l, i)
  }

  ghost predicate Built(m: seq<nat>, l: Layout)
    requires l.Ok()
  {
    SbiBuilt(m, l) && MiddleBuilt(m, l) && RootBuilt(m, l)
  }

  // ---------------------------------------------------------------- what it translates to

  /** Kernel addresses go to address + bias, the topmost pages to physical pages 0, 1, ..., and the rest faults. */
  function Intended(l: Layout, va: u64): Translation
    requires l.Ok()
  {
    if l.user <= va < l.user + l.Supers() * SUPERPAGE then To((va + l.Bias()) % TWO64, SRWX + 1)
    else if va + l.sbiPages * PGSIZE >= TWO64 then To(va + l.sbiPages * PGSIZE - TWO64, SRX + 1)
    else Fault
  }

  /** The step of the walk at an empty entry, at a table and at a leaf. */
  lemma WalkEmpty(m: seq<nat>, page: nat, level: nat, va: u64)
    requires level <= 2 && Word(m, page, PtIdx(va, level)) == 0
    ensures HardwareWalk(m, page, level, va) == Fault
  {
  }

  lemma WalkTable(m: seq<nat>, page: nat, level: nat, va: u64, next: nat)
    requires 0 < level <= 2 && Word(m, page, PtIdx(va, level)) == PtdCreate(next)
    ensures HardwareWalk(m, page, level, va) == HardwareWalk(m, next, level - 1, va)
  {
    PtdFields(next);
  }

  lemma Aligned(a: nat, d: nat)
    requires d > 0 && a % d == 0
    ensures a / d * d == a
  {
  }

  lemma WalkLeaf(m: seq<nat>, page: nat, level: nat, va: u64, ppn: nat, kind: nat)
    requires level <= 2 && kind in {SRWX, SRX} && Word(m, page, PtIdx(va, level)) == KernelPte(ppn, kind)
    requires ppn * PGSIZE % Reach(level) == 0
    ensures HardwareWalk(m, page, level, va) == To(ppn * PGSIZE + va % Reach(level), kind + 1)
  {
    KernelPteFields(ppn, kind);
    Aligned(ppn * PGSIZE, Reach(level));
    hide KernelPte, PtIdx, IsValid, IsTable, PtePpn;
  }

  /** Below the middle tables' reach the root is empty, or the address is not canonical. */
  lemma RootMisses(l: Layout, va: u64)
    requires l.Ok() && Canonical(va) && va < TWO64 - l.Middles() * MEGAPAGE
    ensures RootEntry(l, PtIdx(va, 2)) == 0
  {
    MiddlesFew(l);
    var g := va / MEGAPAGE;
    if va < 0x40_0000_0000 {
      DivUnique(g, ENTRIES, 0, g);
    } else {
      DivUnique(g, ENTRIES, 0x1FF_FFFF, g - 0x1FF_FFFF * ENTRIES);
    }
  }

  /** Above it, the walk reaches the entry of the middle tables for the address's superpage. */
  lemma MiddleReached(l: Layout, va: u64, j: nat)
    requires l.Ok() && va >= TWO64 - l.Middles() * MEGAPAGE && j == (va - (TWO64 - l.Middles() * MEGAPAGE)) / SUPERPAGE
    ensures j < l.Middles() * ENTRIES && Canonical(va)
    ensures PtIdx(va, 2) == ENTRIES - l.Middles() + j / ENTRIES && PtIdx(va, 1) == j % ENTRIES
  {
    MiddlesFew(l);
    var n := l.Middles();
    var r := va - (TWO64 - n * MEGAPAGE);
    assert r == j * SUPERPAGE + r % SUPERPAGE;
    var g := j / ENTRIES;
    assert j == g * ENTRIES + j % ENTRIES;
    DivUnique(va, SUPERPAGE, 0x800_0000_0000 - n * ENTRIES + j, r % SUPERPAGE);
    DivUnique(0x800_0000_0000 - n * ENTRIES + j, ENTRIES, 0x4_0000_0000 - n + g, j % ENTRIES);
    DivUnique(va, MEGAPAGE, 0x4_0000_0000 - n + g, j % ENTRIES * SUPERPAGE + r % SUPERPAGE);
    DivUnique(0x4_0000_0000 - n + g, ENTRIES, 0x1FF_FFFF, ENTRIES - n + g);
  }

  lemma SameWord(m: seq<nat>, page: nat, j: nat)
    ensures Word(m, page, j) == Word(m, page + j / ENTRIES, j % ENTRIES)
  {
  }

  /** The walk from the root to the middle entry for the address's superpage. */
  lemma ThroughRoot(m: seq<nat>, l: Layout, va: u64, j: nat)
    requires l.Ok() && Built(m, l)
    requires va >= TWO64 - l.Middles() * MEGAPAGE && j == (va - (TWO64 - l.Middles() * MEGAPAGE)) / SUPERPAGE
    ensures j < l.Middles() * ENTRIES && Canonical(va) && PtIdx(va, 1) == j % ENTRIES
    ensures HardwareWalk(m, l.RootPage(), 2, va) == HardwareWalk(m, l.MiddlePage() + j / ENTRIES, 1, va)
    ensures Word(m, l.MiddlePage() + j / ENTRIES, PtIdx(va, 1)) ==
            if j == l.Middles() * ENTRIES - 1 then PtdCreate(l.SbiPage()) else MiddleEntry(l, l.Supers(), j)
  {
    hide HardwareWalk, PtIdx, PtdCreate, MiddleEntry, Layout.Supers;
    MiddleReached(l, va, j);
    MiddlesFew(l);
    var i := PtIdx(va, 2);
    assert Word(m, l.RootPage(), i) == RootEntry(l, i);
    WalkTable(m, l.RootPage(), 2, va, l.MiddlePage() + j / ENTRIES);
    SameWord(m, l.MiddlePage(), j);
  }

  /** A kernel address's superpage lies among the kernel's, and nothing else does. */
  lemma SuperpageOf(l: Layout, va: u64, j: nat)
    requires l.Ok() && va >= TWO64 - l.Middles() * MEGAPAGE && j == (va - (TWO64 - l.Middles() * MEGAPAGE)) / SUPERPAGE
    ensures l.First() <= j < l.First() + l.Supers() <==> l.user <= va < l.user + l.Supers() * SUPERPAGE
    ensures va == TWO64 - l.Middles() * MEGAPAGE + j * SUPERPAGE + va % SUPERPAGE
    ensures j == l.Middles() * ENTRIES - 1 <==> va >= TWO64 - SUPERPAGE
  {
    hide Layout.Supers, Layout.First;
    MiddlesFew(l);
    FirstPlace(l);
    var n, base := l.Middles(), TWO64 - l.Middles() * MEGAPAGE;
    var r := va - base;
    assert r == j * SUPERPAGE + r % SUPERPAGE;
    DivUnique(va, SUPERPAGE, 0x800_0000_0000 - n * ENTRIES + j, r % SUPERPAGE);
    var a, c := l.First(), l.Supers();
    assert l.user == base + a * SUPERPAGE;
  }

  /** The superpage of a kernel address, and where in it the address lies. */
  lemma KernelPlace(l: Layout, va: u64, j: nat)
    requires l.Ok() && l.user <= va < l.user + l.Supers() * SUPERPAGE
    requires va >= TWO64 - l.Middles() * MEGAPAGE && j == (va - (TWO64 - l.Middles() * MEGAPAGE)) / SUPERPAGE
    ensures l.First() <= j < l.First() + l.Supers() && j < l.Middles() * ENTRIES - 1
    ensures
      var ppn := l.free / PGSIZE + (j - l.First()) * ENTRIES;
      ppn * PGSIZE % SUPERPAGE == 0 && ppn * PGSIZE + va % SUPERPAGE == va - l.user + l.free
  {
    hide Layout.Supers, Layout.First;
    SuperpageOf(l, va, j);
    KernelEndsBelow(l);
    FirstPlace(l);
    hide Layout.Middles;
    var d := j - l.First();
    FreeAligned(l, d, l.free / PGSIZE + d * ENTRIES);
  }

  lemma FreeAligned(l: Layout, d: nat, ppn: nat)
    requires l.Ok() && ppn == l.free / PGSIZE + d * ENTRIES
    ensures ppn * PGSIZE == l.free + d * SUPERPAGE && ppn * PGSIZE % SUPERPAGE == 0
  {
    var q := l.free / SUPERPAGE;
    hide Layout.Ok;
    DivUnique(l.free, PGSIZE, q * ENTRIES, 0);
    SuperpageAligned(q + d, ppn * PGSIZE);
  }

  lemma KernelAddress(m: seq<nat>, l: Layout, va: u64, j: nat)
    requires l.Ok() && Built(m, l) && l.user <= va < l.user + l.Supers() * SUPERPAGE
    requires va >= TWO64 - l.Middles() * MEGAPAGE && j == (va - (TWO64 - l.Middles() * MEGAPAGE)) / SUPERPAGE
    ensures HardwareWalk(m, l.RootPage(), 2, va) == To(va - l.user + l.free, SRWX + 1)
  {
    hide HardwareWalk, PtIdx, PtdCreate, Built, KernelPte, Layout.Supers, Layout.First, Word;
    KernelPlace(l, va, j);
    ThroughRoot(m, l, va, j);
    hide Layout.Middles, Layout.Ok;
    var ppn := l.free / PGSIZE + (j - l.First()) * ENTRIES;
    WalkLeaf(m, l.MiddlePage() + j / ENTRIES, 1, va, ppn, SRWX);
  }

  lemma SuperpageAligned(k: nat, a: nat)
    requires a == k * SUPERPAGE
    ensures a % SUPERPAGE == 0
  {
    DivUnique(a, SUPERPAGE, k, 0);
  }

  lemma TopIndex(va: u64) returns (i: nat)
    requires va >= TWO64 - SUPERPAGE
    ensures i < ENTRIES && PtIdx(va, 0) == i && va == TWO64 - SUPERPAGE + i * PGSIZE + va % PGSIZE
  {
    var r := va - (TWO64 - SUPERPAGE);
    i := r / PGSIZE;
    DivUnique(va, PGSIZE, 0x10_0000_0000_0000 - ENTRIES + i, r % PGSIZE);
    DivUnique(0x10_0000_0000_0000 - ENTRIES + i, ENTRIES, 0x800_0000_0000 - 1, i);
  }

  lemma TopAddress(m: seq<nat>, l: Layout, va: u64, j: nat)
    requires l.Ok() && Built(m, l) && va >= TWO64 - SUPERPAGE && j == l.Middles() * ENTRIES - 1
    requires va >= TWO64 - l.Middles() * MEGAPAGE && j == (va - (TWO64 - l.Middles() * MEGAPAGE)) / SUPERPAGE
    ensures HardwareWalk(m, l.RootPage(), 2, va) ==
            if va + l.sbiPages * PGSIZE >= TWO64 then To(va + l.sbiPages * PGSIZE - TWO64, SRX + 1) else Fault
  {
    hide HardwareWalk, PtdCreate, KernelPte, Layout.Supers, Layout.First, Word, MiddleEntry, RootBuilt, MiddleBuilt;
    ThroughRoot(m, l, va, j);
    WalkTable(m, l.MiddlePage() + j / ENTRIES, 1, va, l.SbiPage());
    hide Layout.Middles, Layout.Ok;
    var i := TopIndex(va);
    assert Word(m, l.SbiPage(), i) == SbiEntry(l, i);
    if i + l.sbiPages >= ENTRIES {
      WalkLeaf(m, l.SbiPage(), 0, va, i + l.sbiPages - ENTRIES, SRX);
    } else {
      WalkEmpty(m, l.SbiPage(), 0, va);
    }
  }

  /** Below the reach of the middle tables every address faults. */
  lemma BelowReach(m: seq<nat>, l: Layout, va: u64)
    requires l.Ok() && Built(m, l) && va < TWO64 - l.Middles() * MEGAPAGE
    ensures Translate(m, l.RootPage(), va) == Fault == Intended(l, va)
  {
    hide HardwareWalk, Layout.Supers, Layout.First, Word, RootEntry, SbiEntry, MiddleEntry;
    MiddlesFew(l);
    hide Layout.Middles;
    if Canonical(va) {
      RootMisses(l, va);
      assert Word(m, l.RootPage(), PtIdx(va, 2)) == RootEntry(l, PtIdx(va, 2));
      WalkEmpty(m, l.RootPage(), 2, va);
    }
  }

  /** Within it, an address of neither the kernel nor the last superpage faults. */
  lemma BetweenFaults(m: seq<nat>, l: Layout, va: u64, j: nat)
    requires l.Ok() && Built(m, l) && !(l.user <= va < l.user + l.Supers() * SUPERPAGE) && va < TWO64 - SUPERPAGE
    requires va >= TWO64 - l.Middles() * MEGAPAGE && j == (va - (TWO64 - l.Middles() * MEGAPAGE)) / SUPERPAGE
    ensures HardwareWalk(m, l.RootPage(), 2, va) == Fault
  {
    hide HardwareWalk, PtdCreate, KernelPte, Layout.Supers, Layout.First, Word, Built, PtIdx;
    SuperpageOf(l, va, j);
    ThroughRoot(m, l, va, j);
    hide Layout.Middles, Layout.Ok;
    WalkEmpty(m, l.MiddlePage() + j / ENTRIES, 1, va);
  }

  /** The finished table translates every 64-bit address as intended. */
  lemma TranslatesAsIntended(m: seq<nat>, l: Layout, va: u64)
    requires l.Ok() && Built(m, l)
    ensures Translate(m, l.RootPage(), va) == Intended(l, va)
  {
    hide HardwareWalk, Layout.Supers, Built, PtIdx;
    if va < TWO64 - l.Middles() * MEGAPAGE {
      BelowReach(m, l, va);
    } else {
      var j := (va - (TWO64 - l.Middles() * MEGAPAGE)) / SUPERPAGE;
      MiddleReached(l, va, j);
      hide Layout.Middles, Canonical;
      if l.user <= va < l.user + l.Supers() * SUPERPAGE {
        BiasIs(l, va);
        KernelAddress(m, l, va, j);
      } else if va >= TWO64 - SUPERPAGE {
        LastEntry(l, va, j);
        TopAddress(m, l, va, j);
      } else {
        BetweenFaults(m, l, va, j);
      }
    }
  }

  lemma LastEntry(l: Layout, va: u64, j: nat)
    requires l.Ok() && va >= TWO64 - SUPERPAGE
    requires va >= TWO64 - l.Middles() * MEGAPAGE && j == (va - (TWO64 - l.Middles() * MEGAPAGE)) / SUPERPAGE
    ensures j == l.Middles() * ENTRIES - 1
  {
    SuperpageOf(l, va, j);
  }

  /** Adding the bias, modulo 2^64, takes a kernel address to its physical address. */
  lemma BiasIs(l: Layout, va: u64)
    requires l.Ok() && l.user <= va < l.user + l.Supers() * SUPERPAGE
    ensures (va + l.Bias()) % TWO64 == va - l.user + l.free < l.memory
  {
    DivUnique(l.free - l.user, TWO64, -1, l.free - l.user + TWO64);
    DivUnique(va + l.Bias(), TWO64, 1, va - l.user + l.free);
  }

  /** Memory and address space, whichever is less, is used up to a superpage. */
  lemma UsableIsNearlyAll(l: Layout, room: nat)
    requires l.Ok() && room == if l.memory < TWO64 - l.free - l.user then l.memory else TWO64 - l.free - l.user
    ensures room - SUPERPAGE < l.Usable() <= room && l.Usable() % SUPERPAGE == 0
  {
    DivUnique(l.Usable(), SUPERPAGE, room / SUPERPAGE, 0);
  }

  /** Every kernel address whose frame lies in the memory used is mapped to it. */
  lemma KernelIsMapped(l: Layout, va: u64)
    requires l.Ok() && l.user <= va && va - l.user + l.free < l.Usable()
    ensures Intended(l, va) == To(va - l.user + l.free, SRWX + 1)
  {
    var u, q := l.Usable() / SUPERPAGE, l.free / SUPERPAGE;
    UsableBound(l);
    hide Layout.Usable;
    DivUnique(l.Usable() - l.free, SUPERPAGE, u - q, 0);
    BiasIs(l, va);
  }

  lemma UsableBound(l: Layout)
    requires l.Ok()
    ensures l.Usable() <= TWO64 - l.free - l.user && l.Usable() == l.Usable() / SUPERPAGE * SUPERPAGE
    ensures l.free == l.free / SUPERPAGE * SUPERPAGE
  {
  }

  // ---------------------------------------------------------------- building it

  /** Words outside lo to hi are as they were. */
  ghost predicate Outside(m0: seq<nat>, m: seq<nat>, lo: nat, hi: nat) {
    |m| == |m0| && forall k :: 0 <= k < |m| && !(lo <= k < hi) ==> m[k] == m0[k]
  }

  lemma WordPut(m: seq<nat>, page: nat, i: nat, e: nat, page': nat, i': nat)
    requires page * ENTRIES + i < |m|
    ensures Word(m[page * ENTRIES + i := e], page', i') == if page * ENTRIES + i == page' * ENTRIES + i' then e else Word(m, page', i')
  {
  }

  ghost predicate SbiPart(m: seq<nat>, l: Layout, n: nat)
    requires l.Ok()
  {
    forall i :: 0 <= i < ENTRIES ==> Word(m, l.SbiPage(), i) == if i < ENTRIES - l.sbiPages + n then SbiEntry(l, i) else 0
  }

  ghost predicate MiddlePart(m: seq<nat>, l: Layout, n: nat)
    requires l.Ok()
  {
    forall j :: 0 <= j < l.Middles() * ENTRIES ==> Word(m, l.MiddlePage(), j) == MiddleEntry(l, n, j)
  }

  ghost predicate RootPart(m: seq<nat>, l: Layout, n: nat)
    requires l.Ok()
  {
    forall i :: 0 <= i < ENTRIES ==> Word(m, l.RootPage(), i) == if i < ENTRIES - l.Middles() + n then RootEntry(l, i) else 0
  }

  lemma SbiKept(m0: seq<nat>, m: seq<nat>, l: Layout, n: nat, lo: nat, hi: nat)
    requires l.Ok() && SbiPart(m0, l, n) && Outside(m0, m, lo, hi) && l.MiddlePage() * ENTRIES <= lo
    ensures SbiPart(m, l, n)
  {
    hide SbiEntry;
    forall i | 0 <= i < ENTRIES
      ensures Word(m, l.SbiPage(), i) == Word(m0, l.SbiPage(), i)
    {
    }
  }

  lemma MiddleKept(m0: seq<nat>, m: seq<nat>, l: Layout, n: nat, lo: nat, hi: nat)
    requires l.Ok() && MiddlePart(m0, l, n) && Outside(m0, m, lo, hi)
    requires hi <= l.MiddlePage() * ENTRIES || l.RootPage() * ENTRIES <= lo
    ensures MiddlePart(m, l, n)
  {
    hide MiddleEntry, Layout.Middles;
    forall j | 0 <= j < l.Middles() * ENTRIES
      ensures Word(m, l.MiddlePage(), j) == Word(m0, l.MiddlePage(), j)
    {
    }
  }

  lemma RootKept(m0: seq<nat>, m: seq<nat>, l: Layout, n: nat, lo: nat, hi: nat)
    requires l.Ok() && RootPart(m0, l, n) && Outside(m0, m, lo, hi) && hi <= l.RootPage() * ENTRIES
    ensures RootPart(m, l, n)
  {
    hide RootEntry, Layout.Middles;
    forall i | 0 <= i < ENTRIES
      ensures Word(m, l.RootPage(), i) == Word(m0, l.RootPage(), i)
    {
    }
  }

  /** All zero, the parts are there as far as nothing is filled in yet. */
  lemma NothingYet(m: seq<nat>, l: Layout)
    requires l.Ok() && forall k :: 0 <= k < |m| && l.SbiPage() * ENTRIES <= k < (l.RootPage() + 1) * ENTRIES ==> m[k] == 0
    ensures SbiPart(m, l, 0) && MiddlePart(m, l, 0) && RootPart(m, l, 0)
  {
    hide Layout.Middles;
    MiddlesFew(l);
    forall j | 0 <= j < l.Middles() * ENTRIES
      ensures Word(m, l.MiddlePage(), j) == 0
    {
    }
  }

  lemma SbiStep(m: seq<nat>, l: Layout, n: nat)
    requires l.Ok() && SbiPart(m, l, n) && n < l.sbiPages && l.SbiPage() * ENTRIES + ENTRIES <= |m|
    ensures SbiPart(m[l.SbiPage() * ENTRIES + (ENTRIES - l.sbiPages + n) := KernelPte(n, SRX)], l, n + 1)
  {
    hide KernelPte;
    var i0, e := ENTRIES - l.sbiPages + n, KernelPte(n, SRX);
    var m' := m[l.SbiPage() * ENTRIES + i0 := e];
    forall i | 0 <= i < ENTRIES
      ensures Word(m', l.SbiPage(), i) == if i < i0 + 1 then SbiEntry(l, i) else 0
    {
      WordPut(m, l.SbiPage(), i0, e, l.SbiPage(), i);
    }
  }

  lemma MiddleStep(m: seq<nat>, l: Layout, n: nat)
    requires l.Ok() && MiddlePart(m, l, n) && n < l.Supers() && l.RootPage() * ENTRIES <= |m|
    ensures l.First() + n < l.Middles() * ENTRIES
    ensures MiddlePart(m[l.MiddlePage() * ENTRIES + (l.First() + n) := KernelPte(l.free / PGSIZE + n * ENTRIES, SRWX)], l, n + 1)
  {
    KernelEndsBelow(l);
    hide KernelPte, Layout.Middles, Layout.First, Layout.Supers;
    var j0, e := l.First() + n, KernelPte(l.free / PGSIZE + n * ENTRIES, SRWX);
    var m' := m[l.MiddlePage() * ENTRIES + j0 := e];
    forall j | 0 <= j < l.Middles() * ENTRIES
      ensures Word(m', l.MiddlePage(), j) == MiddleEntry(l, n + 1, j)
    {
      WordPut(m, l.MiddlePage(), j0, e, l.MiddlePage(), j);
    }
  }

  lemma RootStep(m: seq<nat>, l: Layout, n: nat)
    requires l.Ok() && RootPart(m, l, n) && n < l.Middles() <= ENTRIES && l.RootPage() * ENTRIES + ENTRIES <= |m|
    ensures RootPart(m[l.RootPage() * ENTRIES + (ENTRIES - l.Middles() + n) := PtdCreate(l.MiddlePage() + n)], l, n + 1)
  {
    hide PtdCreate, Layout.Middles;
    var i0, e := ENTRIES - l.Middles() + n, PtdCreate(l.MiddlePage() + n);
    var m' := m[l.RootPage() * ENTRIES + i0 := e];
    forall i | 0 <= i < ENTRIES
      ensures Word(m', l.RootPage(), i) == if i < i0 + 1 then RootEntry(l, i) else 0
    {
      WordPut(m, l.RootPage(), i0, e, l.RootPage(), i);
    }
  }

  /** The last middle entry is still empty, and pointing it at the SBI's table completes the tree. */
  lemma LastStep(m: seq<nat>, l: Layout)
    requires l.Ok() && SbiPart(m, l, l.sbiPages) && MiddlePart(m, l, l.Supers()) && RootPart(m, l, l.Middles())
    requires l.RootPage() * ENTRIES <= |m|
    ensures
      var j0 := l.Middles() * ENTRIES - 1;
      && 0 <= j0 && Word(m, l.MiddlePage(), j0) == 0
      && Built(m[l.MiddlePage() * ENTRIES + j0 := PtdCreate(l.SbiPage())], l)
  {
    KernelEndsBelow(l);
    MiddlesFew(l);
    hide PtdCreate, KernelPte, Layout.Middles, Layout.First, Layout.Supers, SbiEntry, RootEntry;
    var j0, e := l.Middles() * ENTRIES - 1, PtdCreate(l.SbiPage());
    var m' := m[l.MiddlePage() * ENTRIES + j0 := e];
    var lo := l.MiddlePage() * ENTRIES + j0;
    SbiKept(m, m', l, l.sbiPages, lo, lo + 1);
    RootKept(m, m', l, l.Middles(), lo, lo + 1);
    forall j | 0 <= j < l.Middles() * ENTRIES
      ensures Word(m', l.MiddlePage(), j) == if j == j0 then e else MiddleEntry(l, l.Supers(), j)
    {
      WordPut(m, l.MiddlePage(), j0, e, l.MiddlePage(), j);
    }
  }

  /** memset over whole words. */
  method Clear(words: array<nat>, from: nat, count: nat)
    requires from + count <= words.Length
    modifies words
    ensures Outside(old(words[..]), words[..], from, from + count)
    ensures forall k :: from <= k < from + count ==> words[k] == 0
  {
    for i := 0 to count
      invariant forall k :: 0 <= k < words.Length ==> words[k] == if from <= k < from + i then 0 else old(words[k])
    {
      words[from + i] := 0;
    }
  }

  /** The table pages are cleared in two steps. */
  method ClearTables(words: array<nat>, sbiPt: nat, n: nat)
    requires sbiPt + (n + 2) * ENTRIES <= words.Length
    modifies words
    ensures Outside(old(words[..]), words[..], sbiPt, sbiPt + (n + 2) * ENTRIES)
    ensures forall k :: sbiPt <= k < sbiPt + (n + 2) * ENTRIES ==> words[k] == 0
  {
    Clear(words, sbiPt, ENTRIES);
    Clear(words, sbiPt + ENTRIES, (n + 1) * ENTRIES);
  }

  method FillRoot(words: array<nat>, l: Layout, rootPt: nat, middlePt: nat, n: nat)
    requires l.Ok() && n == l.Middles() && rootPt == l.RootPage() * ENTRIES && middlePt == l.MiddlePage() * ENTRIES
    requires rootPt + ENTRIES <= words.Length && RootPart(words[..], l, 0)
    modifies words
    ensures RootPart(words[..], l, n) && Outside(old(words[..]), words[..], rootPt, rootPt + ENTRIES)
  {
    hide RootPart, PtdCreate;
    MiddlesFew(l);
    for i := 0 to n
      invariant RootPart(words[..], l, i) && Outside(old(words[..]), words[..], rootPt, rootPt + ENTRIES)
    {
      RootStep(words[..], l, i);
      words[rootPt + (ENTRIES - n + i)] := PtdCreate(middlePt / ENTRIES + i);
    }
  }

  method FillMiddle(words: array<nat>, l: Layout, middlePt: nat, n: nat, memSize: nat, bias: u64)
    requires l.Ok() && n == l.Middles() && middlePt == l.MiddlePage() * ENTRIES && memSize == l.Usable() && bias == l.Bias()
    requires l.RootPage() * ENTRIES <= words.Length && MiddlePart(words[..], l, 0)
    modifies words
    ensures MiddlePart(words[..], l, l.Supers()) && Outside(old(words[..]), words[..], middlePt, middlePt + n * ENTRIES)
  {
    hide MiddlePart, KernelPte, Layout.Middles, Outside;
    var vaddr: u64, paddr: u64, i := l.user, (l.user + bias) % TWO64, 0;
    FirstTurn(l);
    OutsideSelf(words[..], middlePt, middlePt + n * ENTRIES);
    while paddr < memSize
      invariant i <= l.Supers() && paddr == l.free + i * SUPERPAGE && vaddr == l.user + i * SUPERPAGE
      invariant MiddlePart(words[..], l, i) && Outside(old(words[..]), words[..], middlePt, middlePt + n * ENTRIES)
      decreases l.Supers() - i
    {
      Turn(l, i, vaddr, paddr);
      MiddleStep(words[..], l, i);
      var idx := l.user / SUPERPAGE % ENTRIES + (vaddr - l.user) / SUPERPAGE;
      OutsidePut(old(words[..]), words[..], middlePt, middlePt + n * ENTRIES, middlePt + idx, KernelPte(paddr / PGSIZE, SRWX));
      words[middlePt + idx] := KernelPte(paddr / PGSIZE, SRWX);
      vaddr, paddr, i := (vaddr + SUPERPAGE) % TWO64, (paddr + SUPERPAGE) % TWO64, i + 1;
    }
    LastTurn(l, i, paddr);
  }

  lemma OutsideSelf(m: seq<nat>, lo: nat, hi: nat)
    ensures Outside(m, m, lo, hi)
  {
  }

  lemma OutsidePut(m0: seq<nat>, m: seq<nat>, lo: nat, hi: nat, k: nat, e: nat)
    requires Outside(m0, m, lo, hi) && lo <= k < hi && k < |m|
    ensures Outside(m0, m[k := e], lo, hi)
  {
  }

  lemma FirstTurn(l: Layout)
    requires l.Ok()
    ensures (l.user + l.Bias()) % TWO64 == l.free
  {
    DivUnique(l.free - l.user, TWO64, -1, l.free - l.user + TWO64);
    DivUnique(l.user + l.Bias(), TWO64, 1, l.free);
  }

  /** While the loop runs there is another superpage to map, its entry is where it should be, and neither counter wraps. */
  lemma Turn(l: Layout, i: nat, vaddr: nat, paddr: nat)
    requires l.Ok() && paddr == l.free + i * SUPERPAGE < l.Usable() && vaddr == l.user + i * SUPERPAGE
    ensures i < l.Supers() && (vaddr - l.user) / SUPERPAGE == i && paddr / PGSIZE == l.free / PGSIZE + i * ENTRIES
    ensures paddr + SUPERPAGE < TWO64 && vaddr + SUPERPAGE < TWO64
    ensures (vaddr + SUPERPAGE) % TWO64 == vaddr + SUPERPAGE && (paddr + SUPERPAGE) % TWO64 == paddr + SUPERPAGE
  {
    AnotherSuperpage(l, i, paddr);
    hide Layout.Supers, Layout.Usable;
    var q := l.free / SUPERPAGE;
    DivUnique(l.free, PGSIZE, q * ENTRIES, 0);
    DivUnique(paddr, PGSIZE, q * ENTRIES + i * ENTRIES, 0);
    DivUnique(vaddr - l.user, SUPERPAGE, i, 0);
    DivUnique(vaddr + SUPERPAGE, TWO64, 0, vaddr + SUPERPAGE);
    DivUnique(paddr + SUPERPAGE, TWO64, 0, paddr + SUPERPAGE);
  }

  lemma AnotherSuperpage(l: Layout, i: nat, paddr: nat)
    requires l.Ok() && paddr == l.free + i * SUPERPAGE < l.Usable()
    ensures i < l.Supers() && paddr + SUPERPAGE <= l.Usable() <= TWO64 - l.free - l.user
  {
    var q, u := l.free / SUPERPAGE, l.Usable() / SUPERPAGE;
    var top := l.Usable();
    UsableBound(l);
    hide Layout.Usable, Layout.Ok;
    assert q * SUPERPAGE == l.free && i + q < u;
    DivUnique(top - l.free, SUPERPAGE, u - q, 0);
  }

  lemma LastTurn(l: Layout, i: nat, paddr: nat)
    requires l.Ok() && paddr == l.free + i * SUPERPAGE >= l.Usable() && i <= l.Supers()
    ensures i == l.Supers()
  {
  }

  method FillSbi(words: array<nat>, l: Layout, sbiPt: nat)
    requires l.Ok() && sbiPt == l.SbiPage() * ENTRIES && l.MiddlePage() * ENTRIES <= words.Length && SbiPart(words[..], l, 0)
    modifies words
    ensures SbiPart(words[..], l, l.sbiPages) && Outside(old(words[..]), words[..], sbiPt, sbiPt + ENTRIES)
  {
    hide SbiPart, KernelPte;
    for i := 0 to l.sbiPages
      invariant SbiPart(words[..], l, i) && Outside(old(words[..]), words[..], sbiPt, sbiPt + ENTRIES)
    {
      SbiStep(words[..], l, i);
      words[sbiPt + (ENTRIES - l.sbiPages + i)] := KernelPte(i, SRX);
    }
  }

  /**
   supervisor_vm_init.  words is physical memory; ok says that `kassert(!*sbi_pte)` holds.
   The three kinds of table lie one after the other behind the kernel.
   */
  method SupervisorVmInit(words: array<nat>, l: Layout) returns (ok: bool, memSize: nat, root: nat, after: nat)
    requires l.Ok() && (l.RootPage() + 1) * ENTRIES <= words.Length
    modifies words
    ensures ok && memSize == l.Usable() && after == l.after + (l.Middles() + 2) * PGSIZE
    ensures root == l.RootPage() && Built(words[..], l)
    ensures forall va: u64 :: Translate(words[..], root, va) == Intended(l, va)
    ensures
      var room := if l.memory < TWO64 - l.free - l.user then l.memory else TWO64 - l.free - l.user;
      room - SUPERPAGE < memSize <= room && memSize % SUPERPAGE == 0
    ensures forall va: u64 :: l.user <= va && va - l.user + l.free < memSize ==>
              Translate(words[..], root, va) == To(va - l.user + l.free, SRWX + 1)
    ensures Outside(old(words[..]), words[..], l.SbiPage() * ENTRIES, (l.RootPage() + 1) * ENTRIES)
    ensures l.SbiPage() * PGSIZE == l.after - l.user + l.free && (root + 1) * PGSIZE == after - l.user + l.free
  {
    hide SbiPart, MiddlePart, RootPart, Built, Translate, Intended, PtdCreate, Outside, Layout.Middles, Layout.Bias;
    ghost var m0 := words[..];
    var highest, bias := TWO64 - l.free, l.Bias();
    memSize := (if l.memory < highest - l.user then l.memory else highest - l.user) / SUPERPAGE * SUPERPAGE;
    SbiPlace(l);
    SbiStart(l);
    UsableIsNearlyAll(l, if l.memory < TWO64 - l.free - l.user then l.memory else TWO64 - l.free - l.user);
    var sbiPt, n := (l.after + bias) % TWO64 / PGSIZE * ENTRIES, l.Middles();
    var middlePt := sbiPt + ENTRIES;
    var rootPt := middlePt + n * ENTRIES;
    ghost var lo, hi := sbiPt, rootPt + ENTRIES;
    ClearTables(words, sbiPt, n);
    ghost var m2 := words[..];
    NothingYet(m2, l);

    FillRoot(words, l, rootPt, middlePt, n);
    ghost var m3 := words[..];
    SbiKept(m2, m3, l, 0, rootPt, hi);
    MiddleKept(m2, m3, l, 0, rootPt, hi);
    OutsideTrans(m0, m2, m3, lo, hi, rootPt, hi, lo, hi);

    FillMiddle(words, l, middlePt, n, memSize, bias);
    ghost var m4 := words[..];
    SbiKept(m3, m4, l, 0, middlePt, rootPt);
    RootKept(m3, m4, l, n, middlePt, rootPt);
    OutsideTrans(m0, m3, m4, lo, hi, middlePt, rootPt, lo, hi);

    after := l.after + (rootPt + ENTRIES - sbiPt) / ENTRIES * PGSIZE;
    FillSbi(words, l, sbiPt);
    ghost var m5 := words[..];
    MiddleKept(m4, m5, l, l.Supers(), sbiPt, middlePt);
    RootKept(m4, m5, l, n, sbiPt, middlePt);
    OutsideTrans(m0, m4, m5, lo, hi, sbiPt, middlePt, lo, hi);

    LastStep(m5, l);
    var last := middlePt + (n * ENTRIES - 1);
    ok := words[last] == 0;
    OutsidePut(m0, m5, lo, hi, last, PtdCreate(sbiPt / ENTRIES));
    words[last] := PtdCreate(sbiPt / ENTRIES);
    root := rootPt / ENTRIES;
    AllAsIntended(words[..], l, root);
    AllKernelMapped(words[..], l, root);
  }

  lemma AllAsIntended(m: seq<nat>, l: Layout, root: nat)
    requires l.Ok() && Built(m, l) && root == l.RootPage()
    ensures forall va: u64 :: Translate(m, root, va) == Intended(l, va)
  {
    hide Built, Translate, Intended;
    forall va: u64
      ensures Translate(m, root, va) == Intended(l, va)
    {
      TranslatesAsIntended(m, l, va);
    }
  }

  lemma AllKernelMapped(m: seq<nat>, l: Layout, root: nat)
    requires l.Ok() && forall va: u64 :: Translate(m, root, va) == Intended(l, va)
    ensures forall va: u64 :: l.user <= va && va - l.user + l.free < l.Usable() ==>
              Translate(m, root, va) == To(va - l.user + l.free, SRWX + 1)
  {
    hide Translate, Intended, Layout.Usable;
    forall va: u64 | l.user <= va && va - l.user + l.free < l.Usable()
      ensures Translate(m, root, va) == To(va - l.user + l.free, SRWX + 1)
    {
      KernelIsMapped(l, va);
    }
  }

  /** The tables begin where the loaded kernel ends. */
  lemma SbiStart(l: Layout)
    requires l.Ok()
    ensures l.SbiPage() * PGSIZE == l.after - l.user + l.free
  {
    var a, u, f := l.after / PGSIZE, l.user / SUPERPAGE, l.free / SUPERPAGE;
    Aligned(l.after, PGSIZE);
    Aligned(l.user, SUPERPAGE);
    Aligned(l.free, SUPERPAGE);
    hide Layout.Ok;
    DivUnique(l.after - l.user + l.free, PGSIZE, a - u * ENTRIES + f * ENTRIES, 0);
  }

  lemma SbiPlace(l: Layout)
    requires l.Ok()
    ensures (l.after + l.Bias()) % TWO64 / PGSIZE == l.SbiPage()
  {
    DivUnique(l.free - l.user, TWO64, -1, l.free - l.user + TWO64);
    DivUnique(l.after + l.Bias(), TWO64, 1, l.after - l.user + l.free);
  }

  lemma OutsideTrans(m0: seq<nat>, m1: seq<nat>, m2: seq<nat>, a: nat, b: nat, c: nat, d: nat, lo: nat, hi: nat)
    requires Outside(m0, m1, a, b) && Outside(m1, m2, c, d) && lo <= a && b <= hi && lo <= c && d <= hi
    ensures Outside(m0, m2, lo, hi)
  {
  }
}
