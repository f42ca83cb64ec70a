/**
 The three-level Sv39 page table of bbl/vm.c as a flat map from virtual page numbers to entries.

 Pages of the table are sequences of 512 words, addressed by physical page number.
 */
module PageTable {
  import opened Basics
  import opened Words

  const PGSIZE: int := 0x1000
  const ENTRIES: int := 512
  const VPNS: int := 0x800_0000    // 27 bits
  const PTE_V: int := 1

  type Page = p: seq<nat> | |p| == ENTRIES witness seq(ENTRIES, _ => 0)

  type Memory = map<nat, Page>

  /** A word of a leaf page. */
  datatype Slot = Slot(page: nat, idx: nat)

  /** Which part of the tree a page is: the words at this level below a prefix of the virtual page number. */
  datatype Node = Node(level: nat, prefix: nat)

  predicate IsValid(e: nat) { e % 2 == 1 }

  /** PTE_TABLE: type bits of an interior node. */
  predicate IsTable(e: nat) { e % 0x20 in {1, 3} }

  function PtePpn(e: nat): nat { e / 0x400 }

  function PtdCreate(ppn: nat): nat {
    ppn * 0x400 + PTE_V
  }

  lemma PtdFields(ppn: nat)
    ensures IsValid(PtdCreate(ppn)) && IsTable(PtdCreate(ppn)) && PtePpn(PtdCreate(ppn)) == ppn
  {
    var e := PtdCreate(ppn);
    DivUnique(e, 0x400, ppn, 1);
    DivUnique(e, 0x20, ppn * 0x20, 1);
    DivUnique(e, 2, ppn * 0x200, 1);
  }

  /** Type bits of supervisor pages. */
  const SRW: int := 0x12
  const SRX: int := 0x14
  const SRWX: int := 0x16

  /** pte_create without user, for the protections used with it. */
  function KernelPte(ppn: nat, kind: nat): nat {
    ppn * 0x400 + PTE_V + kind
  }

  lemma KernelPteFields(ppn: nat, kind: nat)
    requires kind in {SRW, SRX, SRWX}
    ensures
      var e := KernelPte(ppn, kind);
      IsValid(e) && !IsTable(e) && PtePpn(e) == ppn && e % 0x20 == kind + 1
  {
    var e := KernelPte(ppn, kind);
    DivUnique(e, 0x400, ppn, 1 + kind);
    DivUnique(e, 0x20, ppn * 0x20, 1 + kind);
    DivUnique(e, 2, ppn * 0x200 + kind / 2, 1);
  }

  /** The accesses the hardware allows, by the valid and type bits (PTE_UR, PTE_UW, PTE_UX, PTE_SR, PTE_SW, PTE_SX). */
  predicate UserReads(e: nat) { e % 0x20 in {5, 7, 9, 11, 13, 15} }

  predicate UserWrites(e: nat) { e % 0x20 in {7, 11, 15} }

  predicate UserExecutes(e: nat) { e % 0x20 in {5, 7, 13, 15} }

  predicate KernelReads(e: nat) { e % 0x20 in {5, 7, 9, 11, 13, 15, 17, 19, 21, 23, 25, 27, 29, 31} }

  predicate KernelWrites(e: nat) { e % 0x20 in {7, 11, 15, 19, 23, 27, 31} }

  predicate KernelExecutes(e: nat) { e % 0x20 in {13, 15, 21, 23, 29, 31} }

  /** A supervisor page is closed to the user and allows the kernel what its type says. */
  lemma KernelAccess(ppn: nat, kind: nat)
    requires kind in {SRW, SRX, SRWX}
    ensures
      var e := KernelPte(ppn, kind);
      && !UserReads(e) && !UserWrites(e) && !UserExecutes(e) && KernelReads(e)
      && (KernelWrites(e) <==> kind != SRX) && (KernelExecutes(e) <==> kind != SRW)
  {
    KernelPteFields(ppn, kind);
  }

  /** 512 to the power of the level. */
  function Span(level: nat): nat
    requires level <= 3
  {
    if level == 0 then 1 else if level == 1 then 0x200 else if level == 2 then 0x4_0000 else VPNS
  }

  /** pt_idx, on virtual page numbers. */
  function Idx(vpn: nat, level: nat): (i: nat)
    requires level <= 2
    ensures i < ENTRIES
  {
    vpn / Span(level) % ENTRIES
  }

  /** The walk of the privileged architecture, load by load: bits 38 to 30, 29 to 21 and 20 to 12 of an address. */
  lemma ThreeLoads(mem: Memory, root: nat, addr: u64)
    requires root in mem
    ensures
      var e2 := mem[root][addr / 0x4000_0000 % 0x200];
      var p1 := e2 / 0x400;
      if !IsValid(e2) || p1 !in mem then Lookup(mem, root, Vpn(addr)) == 0
      else
        var e1 := mem[p1][addr / 0x20_0000 % 0x200];
        var p0 := e1 / 0x400;
        Lookup(mem, root, Vpn(addr)) == if !IsValid(e1) || p0 !in mem then 0 else mem[p0][addr / 0x1000 % 0x200]
  {
    PtIdxOfVpn(addr, 2);
    PtIdxOfVpn(addr, 1);
    PtIdxOfVpn(addr, 0);
    hide Idx, Vpn;
    LeafIndex(Vpn(addr));
  }

  lemma LeafIndex(vpn: nat)
    ensures vpn % ENTRIES == Idx(vpn, 0)
  {
  }

  /** The virtual page of an address; the upper bits do not take part. */
  function Vpn(addr: u64): (v: nat)
    ensures v < VPNS
  {
    addr / 0x1000 % VPNS
  }

  /** pt_idx, on addresses. */
  function PtIdx(addr: u64, level: nat): (i: nat)
    requires level <= 2
    ensures i < ENTRIES
  {
    addr / (0x1000 * Span(level)) % ENTRIES
  }

  lemma PtIdxOfVpn(addr: u64, level: nat)
    requires level <= 2
    ensures PtIdx(addr, level) == Idx(Vpn(addr), level)
  {
    var a := addr / 0x1000;
    assert addr / (0x1000 * Span(level)) == a / Span(level);
    var hi, v := a / VPNS, a % VPNS;
    assert a == hi * VPNS + v;
    if level == 0 {
      DivUnique(a, ENTRIES, hi * 0x4_0000 + v / ENTRIES, v % ENTRIES);
    } else if level == 1 {
      var b := v / 0x200;
      DivUnique(a, 0x200, hi * 0x4_0000 + b, v % 0x200);
      DivUnique(hi * 0x4_0000 + b, ENTRIES, hi * 0x200 + b / ENTRIES, b % ENTRIES);
    } else {
      var b := v / 0x4_0000;
      DivUnique(a, 0x4_0000, hi * 0x200 + b, v % 0x4_0000);
      DivUnique(hi * 0x200 + b, ENTRIES, hi + b / ENTRIES, b % ENTRIES);
    }
  }

  lemma IdxExtends(vpn: nat, level: nat)
    requires level <= 2
    ensures vpn / Span(level) == vpn / Span(level + 1) * ENTRIES + Idx(vpn, level)
  {
    var a, b := vpn / Span(level), vpn / Span(level + 1);
    DivUnique(a, ENTRIES, b, a - b * ENTRIES);
  }

  // ---------------------------------------------------------------- walking

  /** The leaf page for vpn below page t. */
  function Descend(mem: Memory, t: nat, level: nat, vpn: nat): Option<nat>
    requires level <= 2
    decreases level
  {
    if t !in mem then None
    else if level == 0 then Some(t)
    else
      var e := mem[t][Idx(vpn, level)];
      if IsValid(e) then Descend(mem, PtePpn(e), level - 1, vpn) else None
  }

  /** What the table holds for vpn; 0 if there is no path to a leaf. */
  function Lookup(mem: Memory, root: nat, vpn: nat): nat {
    match Descend(mem, root, 2, vpn)
    case None => 0
    case Some(p) => if p in mem then mem[p][vpn % ENTRIES] else 0
  }

  /** Every page has its place in the tree, and links lead to pages in the right place. */
  ghost predicate Tree(mem: Memory, role: map<nat, Node>, root: nat) {
    && role.Keys == mem.Keys && root in mem && role[root] == Node(2, 0)
    && (forall p :: p in mem ==> role[p].level <= 2)
    && (forall p, i :: p in mem && 0 <= i < ENTRIES && role[p].level > 0 && IsValid(mem[p][i]) ==> LinkOk(mem, role, p, i))
  }

  ghost predicate LinkOk(mem: Memory, role: map<nat, Node>, p: nat, i: nat)
    requires p in mem && p in role && i < ENTRIES
  {
    && IsTable(mem[p][i]) && PtePpn(mem[p][i]) in role
    && role[p].level > 0 && role[PtePpn(mem[p][i])] == Node(role[p].level - 1, role[p].prefix * ENTRIES + i)
  }

  /** On the way to vpn, a page's role is its level and the upper part of vpn. */
  lemma {:induction false} DescendRole(mem: Memory, role: map<nat, Node>, root: nat, t: nat, level: nat, vpn: nat)
    requires Tree(mem, role, root) && level <= 2 && t in mem && role[t] == Node(level, vpn / Span(level + 1))
    ensures
      match Descend(mem, t, level, vpn)
      case None => true
      case Some(p) => p in mem && role[p] == Node(0, vpn / ENTRIES)
    decreases level
  {
    if level > 0 && IsValid(mem[t][Idx(vpn, level)]) {
      assert LinkOk(mem, role, t, Idx(vpn, level));
      IdxExtends(vpn, level);
      DescendRole(mem, role, root, PtePpn(mem[t][Idx(vpn, level)]), level - 1, vpn);
    }
  }

  /** Different virtual pages have different slots. */
  lemma SlotsDistinct(mem: Memory, role: map<nat, Node>, root: nat, v: nat, w: nat)
    requires Tree(mem, role, root) && v < VPNS && w < VPNS && v != w
    requires Descend(mem, root, 2, v).Some? && Descend(mem, root, 2, w).Some?
    ensures Descend(mem, root, 2, v) != Descend(mem, root, 2, w) || v % ENTRIES != w % ENTRIES
  {
    RootPrefix(v);
    RootPrefix(w);
    DescendRole(mem, role, root, root, 2, v);
    DescendRole(mem, role, root, root, 2, w);
  }

  lemma RootPrefix(v: nat)
    requires v < VPNS
    ensures v / Span(3) == 0
  {
  }

  // ---------------------------------------------------------------- writing a leaf

  lemma {:induction false} LeafWriteKeepsPath(mem: Memory, role: map<nat, Node>, root: nat, t: nat, level: nat, vpn: nat, p: nat, i: nat, e: nat)
    requires Tree(mem, role, root) && level <= 2 && p in mem && role[p].level == 0 && i < ENTRIES
    requires t in mem && role[t].level == level
    ensures Descend(mem[p := mem[p][i := e]], t, level, vpn) == Descend(mem, t, level, vpn)
    decreases level
  {
    if level > 0 && IsValid(mem[t][Idx(vpn, level)]) {
      assert LinkOk(mem, role, t, Idx(vpn, level));
      LeafWriteKeepsPath(mem, role, root, PtePpn(mem[t][Idx(vpn, level)]), level - 1, vpn, p, i, e);
    }
  }

  lemma LeafWriteKeepsTree(mem: Memory, role: map<nat, Node>, root: nat, p: nat, i: nat, e: nat)
    requires Tree(mem, role, root) && p in mem && role[p].level == 0 && i < ENTRIES
    ensures Tree(mem[p := mem[p][i := e]], role, root)
  {
    var mem' := mem[p := mem[p][i := e]];
    forall q, j | q in mem' && 0 <= j < ENTRIES && role[q].level > 0 && IsValid(mem'[q][j])
      ensures LinkOk(mem', role, q, j)
    {
      assert mem'[q] == mem[q] && LinkOk(mem, role, q, j);
    }
  }

  /** Storing at the slot of v changes what the table holds for v, and for no other page. */
  lemma LeafWrite(mem: Memory, role: map<nat, Node>, root: nat, v: nat, e: nat, w: nat)
    requires Tree(mem, role, root) && v < VPNS && w < VPNS && Descend(mem, root, 2, v).Some?
    ensures
      var p := Descend(mem, root, 2, v).value;
      && p in mem && role[p].level == 0
      && Lookup(mem[p := mem[p][v % ENTRIES := e]], root, w) == if w == v then e else Lookup(mem, root, w)
  {
    RootPrefix(v);
    DescendRole(mem, role, root, root, 2, v);
    var p := Descend(mem, root, 2, v).value;
    LeafWriteKeepsPath(mem, role, root, root, 2, w, p, v % ENTRIES, e);
    if w != v && Descend(mem, root, 2, w).Some? {
      SlotsDistinct(mem, role, root, v, w);
    }
  }

  // ---------------------------------------------------------------- growing the tree

  function ZeroPage(): Page {
    seq(ENTRIES, _ => 0)
  }

  /** mem with the fresh page q hung, zeroed, into entry i of page p. */
  function Grown(mem: Memory, p: nat, i: nat, q: nat): Memory
    requires p in mem && i < ENTRIES
  {
    mem[q := ZeroPage()][p := mem[p][i := PtdCreate(q)]]
  }

  lemma GrownTree(mem: Memory, role: map<nat, Node>, root: nat, p: nat, i: nat, q: nat)
    requires Tree(mem, role, root) && p in mem && role[p].level > 0 && i < ENTRIES && q !in mem && !IsValid(mem[p][i])
    ensures Tree(Grown(mem, p, i, q), role[q := Node(role[p].level - 1, role[p].prefix * ENTRIES + i)], root)
  {
    PtdFields(q);
    var mem', role' := Grown(mem, p, i, q), role[q := Node(role[p].level - 1, role[p].prefix * ENTRIES + i)];
    forall s, j | s in mem' && 0 <= j < ENTRIES && role'[s].level > 0 && IsValid(mem'[s][j])
      ensures LinkOk(mem', role', s, j)
    {
      if s != q && !(s == p && j == i) {
        assert mem'[s][j] == mem[s][j] && LinkOk(mem, role, s, j);
      }
    }
  }

  /** Every old path stays, and a new one leads to the zeroed page. */
  lemma {:induction false} GrownPaths(mem: Memory, role: map<nat, Node>, root: nat, p: nat, i: nat, q: nat, t: nat, level: nat, vpn: nat)
    requires Tree(mem, role, root) && p in mem && role[p].level > 0 && i < ENTRIES && q !in mem && !IsValid(mem[p][i])
    requires level <= 2 && t in mem && role[t].level == level
    ensures
      var before, after := Descend(mem, t, level, vpn), Descend(Grown(mem, p, i, q), t, level, vpn);
      if before.Some? then after == before && before.value != q else after == None || after == Some(q)
    decreases level
  {
    var mem' := Grown(mem, p, i, q);
    var j := if level > 0 then Idx(vpn, level) else 0;
    if level > 0 {
      if t == p && j == i {
        PtdFields(q);
      } else if IsValid(mem[t][j]) {
        assert mem'[t][j] == mem[t][j] && LinkOk(mem, role, t, j);
        GrownPaths(mem, role, root, p, i, q, PtePpn(mem[t][j]), level - 1, vpn);
      }
    }
  }

  /** Growing the tree does not change what it holds. */
  lemma GrownLookup(mem: Memory, role: map<nat, Node>, root: nat, p: nat, i: nat, q: nat, vpn: nat)
    requires Tree(mem, role, root) && p in mem && role[p].level > 0 && i < ENTRIES && q !in mem && !IsValid(mem[p][i]) && vpn < VPNS
    ensures Lookup(Grown(mem, p, i, q), root, vpn) == Lookup(mem, root, vpn)
  {
    GrownPaths(mem, role, root, p, i, q, root, 2, vpn);
    RootPrefix(vpn);
    DescendRole(mem, role, root, root, 2, vpn);
    hide Descend;
  }

  // ---------------------------------------------------------------- the walk

  /** The page reached on the way to vpn when `level` levels are left. */
  function NodeAt(mem: Memory, root: nat, vpn: nat, level: nat): Option<nat>
    requires level <= 2
    decreases 2 - level
  {
    if level == 2 then Some(root)
    else
      match NodeAt(mem, root, vpn, level + 1)
      case None => None
      case Some(p) =>
        if p in mem && IsValid(mem[p][Idx(vpn, level + 1)]) then Some(PtePpn(mem[p][Idx(vpn, level + 1)])) else None
  }

  lemma {:induction false} NodeOnPath(mem: Memory, role: map<nat, Node>, root: nat, vpn: nat, level: nat)
    requires Tree(mem, role, root) && vpn < VPNS && level <= 2 && NodeAt(mem, root, vpn, level).Some?
    ensures
      var t := NodeAt(mem, root, vpn, level).value;
      t in mem && role[t] == Node(level, vpn / Span(level + 1)) && Descend(mem, root, 2, vpn) == Descend(mem, t, level, vpn)
    decreases 2 - level
  {
    if level == 2 {
      RootPrefix(vpn);
    } else {
      NodeOnPath(mem, role, root, vpn, level + 1);
      var p := NodeAt(mem, root, vpn, level + 1).value;
      assert LinkOk(mem, role, p, Idx(vpn, level + 1));
      IdxExtends(vpn, level + 1);
    }
  }

  lemma {:induction false} NodeKept(mem: Memory, role: map<nat, Node>, root: nat, p: nat, i: nat, q: nat, vpn: nat, level: nat)
    requires Tree(mem, role, root) && p in mem && role[p].level > 0 && i < ENTRIES && q !in mem && !IsValid(mem[p][i])
    requires vpn < VPNS && level <= 2 && NodeAt(mem, root, vpn, level).Some?
    ensures NodeAt(Grown(mem, p, i, q), root, vpn, level) == NodeAt(mem, root, vpn, level)
    decreases 2 - level
  {
    if level < 2 {
      NodeKept(mem, role, root, p, i, q, vpn, level + 1);
      NodeOnPath(mem, role, root, vpn, level + 1);
    }
  }

  ghost function FlatOf(mem: Memory, root: nat, hasRoot: bool): (f: seq<nat>)
    ensures |f| == VPNS && forall v :: 0 <= v < VPNS ==> f[v] == if hasRoot then Lookup(mem, root, v) else 0
  {
    seq(VPNS, v requires 0 <= v < VPNS => if hasRoot then Lookup(mem, root, v) else 0)
  }

  /** The page table and the page allocator behind it. */
  class Tables {
    const firstFreePage: nat    // page numbers
    const freePages: nat
    var nextFreePage: nat
    var hasRoot: bool           // root_page_table != NULL
    var root: nat
    var mem: Memory
    ghost var role: map<nat, Node>

    ghost predicate Valid()
      reads this
    {
      && nextFreePage <= freePages
      && (if hasRoot then Tree(mem, role, root) else mem == map[])
      && (forall p :: p in mem ==> firstFreePage <= p < firstFreePage + nextFreePage)
    }

    /** The entry the table holds for a virtual page. */
    ghost function Holds(vpn: nat): nat
      reads this
    {
      if hasRoot then Lookup(mem, root, vpn) else 0
    }

    /** There is a leaf page for vpn. */
    ghost predicate HasPath(vpn: nat)
      reads this
    {
      hasRoot && Descend(mem, root, 2, vpn).Some?
    }

    /** The table as a flat map. */
    ghost function Flat(): (f: seq<nat>)
      reads this
      ensures |f| == VPNS && forall v :: 0 <= v < VPNS ==> f[v] == Holds(v)
    {
      FlatOf(mem, root, hasRoot)
    }

    constructor (firstFreePage: nat, freePages: nat)
      ensures Valid() && forall vpn :: Holds(vpn) == 0 && !HasPath(vpn)
      ensures this.firstFreePage == firstFreePage && this.freePages == freePages
    {
      this.firstFreePage, this.freePages := firstFreePage, freePages;
      nextFreePage, hasRoot, root, mem, role := 0, false, 0, map[], map[];
    }

    /** __page_alloc; ok is false where the source asserts that a page is left. */
    method PageAlloc() returns (ok: bool, page: nat)
      requires Valid()
      modifies this`nextFreePage
      ensures Valid() && ok == (old(nextFreePage) < freePages)
      ensures ok ==> page == firstFreePage + old(nextFreePage) && nextFreePage == old(nextFreePage) + 1
      ensures !ok ==> nextFreePage == old(nextFreePage)
      ensures ok ==> page !in mem
    {
      ok, page := nextFreePage != freePages, 0;
      if ok {
        page := firstFreePage + nextFreePage;
        nextFreePage := nextFreePage + 1;
      }
    }

    method MaybeCreateRoot() returns (ok: bool)
      requires Valid()
      modifies this
      ensures Valid() && (ok ==> hasRoot) && (forall vpn :: Holds(vpn) == old(Holds(vpn)) && HasPath(vpn) == old(HasPath(vpn)))
      ensures old(hasRoot) ==> ok && hasRoot && root == old(root) && mem == old(mem) && role == old(role) && nextFreePage == old(nextFreePage)
      ensures !ok ==> nextFreePage == freePages
    {
      ok := true;
      if hasRoot { return; }
      var page;
      ok, page := PageAlloc();
      if !ok { return; }
      root, hasRoot, mem := page, true, map[page := ZeroPage()];
      role := map[page := Node(2, 0)];
      assert forall vpn :: Lookup(mem, root, vpn) == 0 && Descend(mem, root, 2, vpn) == None;
    }

    /** Where the entry for vpn is stored. */
    ghost function SlotOf(vpn: nat): Option<Slot>
      reads this
    {
      if !hasRoot then None
      else
        match Descend(mem, root, 2, vpn)
        case None => None
        case Some(p) => Some(Slot(p, vpn % ENTRIES))
    }

    /** Paths only ever get added, and the table holds what it held. */
    twostate predicate OnlyGrew()
      reads this
    {
      && (forall w :: 0 <= w < VPNS ==> Holds(w) == old(Holds(w)))
      && (forall w :: 0 <= w < VPNS && old(HasPath(w)) ==> HasPath(w) && SlotOf(w) == old(SlotOf(w)))
    }

    /** __walk_internal */
    method WalkInternal(addr: u64, create: bool) returns (ok: bool, slot: Option<Slot>)
      requires Valid()
      modifies this
      ensures Valid() && OnlyGrew() && Flat() == old(Flat())
      ensures ok ==> slot == SlotOf(Vpn(addr)) && (create ==> slot.Some?)
      ensures !create ==> forall w :: 0 <= w < VPNS ==> HasPath(w) == old(HasPath(w))
      ensures !ok ==> nextFreePage == freePages
      ensures (!create && old(hasRoot) ==> ok) && (ok ==> hasRoot)
    {
      hide Descend, Lookup, Tree, NodeAt;
      slot := None;
      ok := MaybeCreateRoot();
      if !ok { return; }
      var t, i := root, 2;
      ghost var vpn := Vpn(addr);
      NodeTop(mem, root, vpn);
      while i > 0
        invariant 0 <= i <= 2 && Valid() && hasRoot && ok && OnlyGrew()
        invariant NodeAt(mem, root, vpn, i) == Some(t)
        invariant !create ==> forall w :: 0 <= w < VPNS ==> HasPath(w) == old(HasPath(w))
      {
        PtIdxOfVpn(addr, i);
        var next;
        ok, next := Enter(t, PtIdx(addr, i), create, vpn, i);
        if !ok || next.None? { return; }
        t := next.value;
        i := i - 1;
      }
      NodeOnPath(mem, role, root, vpn, 0);
      LeafIs(mem, t, vpn);
      PtIdxOfVpn(addr, 0);
      slot := Some(Slot(t, PtIdx(addr, 0)));
    }

    /** One level of the walk: the page below entry idx of t, created if it is missing. */
    method Enter(t: nat, idx: nat, create: bool, ghost vpn: nat, ghost level: nat) returns (ok: bool, next: Option<nat>)
      requires Valid() && hasRoot && vpn < VPNS && 0 < level <= 2 && NodeAt(mem, root, vpn, level) == Some(t) && idx == Idx(vpn, level)
      modifies this
      ensures Valid() && hasRoot && root == old(root) && OnlyGrew() && (!create ==> ok && mem == old(mem))
      ensures ok ==> if next.None? then !create && SlotOf(vpn) == None else NodeAt(mem, root, vpn, level - 1) == next
      ensures !ok ==> nextFreePage == freePages
    {
      hide Descend, Lookup, Tree, NodeAt;
      ok, next := true, None;
      NodeOnPath(mem, role, root, vpn, level);
      if !IsValid(mem[t][idx]) {
        NoPathBelow(mem, t, level, vpn);
        if !create { return; }
        var page;
        ok, page := PageAlloc();
        if !ok { return; }
        Hang(t, idx, page, vpn, level);
        PtdFields(page);
      } else {
        assert IsTable(mem[t][idx]) by { TableBelow(mem, role, root, t, idx); }
      }
      NodeNext(mem, root, vpn, level, t);
      next := Some(PtePpn(mem[t][idx]));
    }

    /** A new page hung below page t on the way to vpn. */
    method Hang(t: nat, idx: nat, page: nat, ghost vpn: nat, ghost level: nat)
      requires Valid() && hasRoot && t in mem && page !in mem && firstFreePage <= page < firstFreePage + nextFreePage
      requires vpn < VPNS && 0 < level <= 2 && NodeAt(mem, root, vpn, level) == Some(t) && idx == Idx(vpn, level) && !IsValid(mem[t][idx])
      modifies this`mem, this`role
      ensures Valid() && OnlyGrew() && NodeAt(mem, root, vpn, level) == Some(t) && t in mem && mem[t][idx] == PtdCreate(page)
    {
      hide Descend, Lookup, NodeAt;
      NodeOnPath(mem, role, root, vpn, level);
      GrownTree(mem, role, root, t, idx, page);
      NodeKept(mem, role, root, t, idx, page, vpn, level);
      forall w | 0 <= w < VPNS
        ensures Lookup(Grown(mem, t, idx, page), root, w) == Lookup(mem, root, w)
        ensures Descend(mem, root, 2, w).Some? ==> Descend(Grown(mem, t, idx, page), root, 2, w) == Descend(mem, root, 2, w)
      {
        GrownLookup(mem, role, root, t, idx, page, w);
        GrownPaths(mem, role, root, t, idx, page, root, 2, w);
      }
      hide Tree;
      role := role[page := Node(role[t].level - 1, role[t].prefix * ENTRIES + idx)];
      mem := mem[page := ZeroPage()];
      mem := mem[t := mem[t][idx := PtdCreate(page)]];
    }

    /** `*pte` */
    function Load(slot: Slot): nat
      requires slot.page in mem && slot.idx < ENTRIES
      reads this`mem
    {
      mem[slot.page][slot.idx]
    }

    /** A slot found by the walk holds the entry of its page. */
    lemma LoadHolds(vpn: nat)
      requires Valid() && vpn < VPNS && SlotOf(vpn).Some?
      ensures var slot := SlotOf(vpn).value; slot.page in mem && slot.idx < ENTRIES && Load(slot) == Holds(vpn)
    {
      RootPrefix(vpn);
      DescendRole(mem, role, root, root, 2, vpn);
    }

    /** `*pte = e` */
    method Store(slot: Slot, e: nat, ghost vpn: nat)
      requires Valid() && vpn < VPNS && SlotOf(vpn) == Some(slot)
      modifies this`mem
      ensures Valid() && Flat() == old(Flat())[vpn := e]
      ensures forall w :: 0 <= w < VPNS ==> SlotOf(w) == old(SlotOf(w))
    {
      hide Descend, Lookup;
      ghost var p := Descend(mem, root, 2, vpn).value;
      LeafWrite(mem, role, root, vpn, e, vpn);
      forall w | 0 <= w < VPNS
        ensures Lookup(mem[p := mem[p][vpn % ENTRIES := e]], root, w) == if w == vpn then e else Lookup(mem, root, w)
        ensures Descend(mem[p := mem[p][vpn % ENTRIES := e]], root, 2, w) == Descend(mem, root, 2, w)
      {
        LeafWrite(mem, role, root, vpn, e, w);
        LeafWriteKeepsPath(mem, role, root, root, 2, w, p, vpn % ENTRIES, e);
      }
      LeafWriteKeepsTree(mem, role, root, p, vpn % ENTRIES, e);
      hide Tree;
      mem := mem[slot.page := mem[slot.page][slot.idx := e]];
    }

    /** __va_avail */
    method VaAvail(addr: u64) returns (ok: bool, avail: bool)
      requires Valid()
      modifies this
      ensures Valid() && OnlyGrew() && Flat() == old(Flat()) && (old(hasRoot) ==> ok) && (hasRoot || !ok)
      ensures !ok ==> nextFreePage == freePages
      ensures ok ==> avail == (Holds(Vpn(addr)) == 0)
    {
      avail := false;
      var pte;
      ok, pte := WalkInternal(addr, false);
      if ok {
        NoSlotNoEntry(Vpn(addr));
        avail := pte.None?;
        if pte.Some? {
          LoadHolds(Vpn(addr));
          avail := Load(pte.value) == 0;
        }
      }
    }

    lemma NoSlotNoEntry(vpn: nat)
      requires Valid() && vpn < VPNS
      ensures SlotOf(vpn).None? ==> Holds(vpn) == 0
      ensures SlotOf(vpn).Some? <==> HasPath(vpn)
    {
    }
  }

  lemma NodeTop(mem: Memory, root: nat, vpn: nat)
    ensures NodeAt(mem, root, vpn, 2) == Some(root)
  {
  }

  lemma NodeNext(mem: Memory, root: nat, vpn: nat, level: nat, t: nat)
    requires 0 < level <= 2 && NodeAt(mem, root, vpn, level) == Some(t) && t in mem && IsValid(mem[t][Idx(vpn, level)])
    ensures NodeAt(mem, root, vpn, level - 1) == Some(PtePpn(mem[t][Idx(vpn, level)]))
  {
  }

  lemma NoPathBelow(mem: Memory, t: nat, level: nat, vpn: nat)
    requires 0 < level <= 2 && t in mem && !IsValid(mem[t][Idx(vpn, level)])
    ensures Descend(mem, t, level, vpn) == None
  {
  }

  lemma LeafIs(mem: Memory, t: nat, vpn: nat)
    requires t in mem
    ensures Descend(mem, t, 0, vpn) == Some(t)
    ensures Idx(vpn, 0) == vpn % ENTRIES
  {
  }

  lemma TableBelow(mem: Memory, role: map<nat, Node>, root: nat, t: nat, i: nat)
    requires Tree(mem, role, root) && t in mem && role[t].level > 0 && i < ENTRIES && IsValid(mem[t][i])
    ensures IsTable(mem[t][i])
  {
    assert LinkOk(mem, role, t, i);
  }
}
