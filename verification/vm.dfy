/** mmap, munmap, page faults and brk (bbl/vm.c) over the page table and the mapping records. */
module Vm {
  import opened Basics
  import opened Words
  import opened PageTable
  import opened VmRegions
  import opened VmSearch

  class Vm {
    const tables: Tables
    const vmrBase: nat              // address of the record table
    const firstFreePaddr: nat
    const mmapMax: nat
    const brkMin: nat
    var vmrs: seq<Vmr>
    var held: map<nat, nat>         // references mappings hold on files
    var brk: nat
    var brkMax: nat

    /** Record k counts `extra` more entries than name it, every other record exactly those. */
    ghost predicate Pending(k: nat, extra: int)
      reads this, tables
    {
      && tables.Valid() && State(tables.Flat(), vmrs, held, vmrBase, k, extra)
      && mmapMax <= VPNS * PGSIZE && firstFreePaddr > 0
    }

    /** All its bytes are user bytes: behind the kernel's memory, below mmapMax. */
    lemma UserRangeMeans(vaddr: nat, len: nat)
      requires 0 < len
      ensures ValidUserRange(vaddr, len) <==> forall x :: vaddr <= x < vaddr + len ==> UserByte(x)
    {
      var last := vaddr + len - 1;
      assert UserByte(vaddr) && UserByte(last) ==> ValidUserRange(vaddr, len);
    }

    ghost predicate UserByte(x: nat) {
      firstFreePaddr <= x < mmapMax
    }

    /** Pages that start outside the user's addresses hold what they held. */
    ghost predicate KernelKept(f: seq<nat>, f': seq<nat>) {
      |f'| == |f| && forall v :: 0 <= v < |f| && !(firstFreePaddr <= v * PGSIZE < mmapMax) ==> f'[v] == f[v]
    }

    /** There is no page left for the page table. */
    predicate OutOfPages()
      reads tables
    {
      tables.nextFreePage == tables.freePages
    }

    /** What holds between calls. */
    ghost predicate Valid()
      reads this, tables
    {
      Pending(0, 0)
    }

    /** After start-up: no mapping, a zeroed record table, only kernel pages in the page table. */
    constructor (tables: Tables, vmrBase: nat, firstFreePaddr: nat, mmapMax: nat, brkMin: nat)
      requires tables.Valid() && BaseOk(vmrBase) && 0 < firstFreePaddr && mmapMax <= VPNS * PGSIZE
      requires forall v :: 0 <= v < VPNS ==> tables.Holds(v) == 0 || IsValid(tables.Holds(v))
      ensures Valid() && this.tables == tables && this.firstFreePaddr == firstFreePaddr && this.mmapMax == mmapMax && this.brkMin == brkMin
      ensures brk == 0 && brkMax == mmapMax && held == map[] && (brkMin <= VPNS * PGSIZE ==> Ready())
    {
      this.tables, this.vmrBase, this.firstFreePaddr, this.mmapMax, this.brkMin := tables, vmrBase, firstFreePaddr, mmapMax, brkMin;
      vmrs, held, brk, brkMax := seq(MAX_VMR, _ => NoVmr()), map[], 0, mmapMax;
      new;
      Unused(tables.Flat(), vmrs, vmrBase);
    }

    /** __valid_user_range; a range that wraps round is longer than mmapMax. */
    predicate ValidUserRange(vaddr: nat, len: nat) {
      vaddr >= firstFreePaddr && vaddr + len <= mmapMax
    }

    // ---------------------------------------------------------------- munmap

    /** __vmr_decref: gives back the file when the last page goes. */
    method VmrDecref(j: nat)
      requires j < |vmrs| && vmrs[j].refcnt > 0
      modifies this`vmrs, this`held
      ensures vmrs == old(vmrs)[j := Decref(old(vmrs)[j])]
      ensures held == if old(vmrs)[j].refcnt == 1 then FileDecref(old(held), old(vmrs)[j].file) else old(held)
    {
      vmrs := vmrs[j := vmrs[j].(refcnt := vmrs[j].refcnt - 1)];
      if vmrs[j].refcnt == 0 {
        held := FileDecref(held, vmrs[j].file);
      }
    }

    /** One turn of __do_munmap's loop; alive is false where the walk has no page for the root. */
    method UnmapPage(a: nat, ghost k: nat, ghost extra: nat) returns (alive: bool)
      requires Pending(k, extra) && a < VPNS * PGSIZE && a % PGSIZE == 0
      modifies this`vmrs, this`held, tables
      ensures alive ==> Pending(k, extra) && tables.Flat() == old(tables.Flat())[a / PGSIZE := 0]
      ensures alive ==> SameRanges(old(vmrs), vmrs)
      ensures alive ==> tables.hasRoot && forall w :: 0 <= w < VPNS && old(tables.HasPath(w)) ==> tables.SlotOf(w) == old(tables.SlotOf(w))
      ensures (old(tables.hasRoot) ==> alive) && (!alive ==> OutOfPages())
    {
      hide State, Tables.Flat, Tables.Valid;
      ghost var v := a / PGSIZE;
      PageOf(a);
      var pte;
      alive, pte := tables.WalkInternal(a, false);
      if !alive { return; }
      tables.NoSlotNoEntry(v);
      if pte.None? {
        Untouched(tables.Flat(), v);
        return;
      }
      tables.LoadHolds(v);
      var e := tables.Load(pte.value);
      if e == 0 {
        Untouched(tables.Flat(), v);
        return;
      }
      if !IsValid(e) {
        ghost var j0 := RecordOf(tables.Flat(), vmrs, held, vmrBase, k, extra, v);
        var j := (e - vmrBase) / VMR_SIZE;
        Released(tables.Flat(), vmrs, held, vmrBase, k, extra, v, 0, j);
        VmrDecref(j);
      } else {
        Replaced(tables.Flat(), vmrs, held, vmrBase, k, extra, v, 0);
      }
      tables.Store(pte.value, 0, v);
    }

    /** __do_munmap: every page that starts in the range becomes empty. */
    method DoMunmapRange(addr: nat, len: nat, ghost k: nat, ghost extra: nat) returns (alive: bool)
      requires Pending(k, extra) && addr % PGSIZE == 0 && addr + len <= VPNS * PGSIZE
      modifies this`vmrs, this`held, tables
      ensures alive ==> Pending(k, extra) && Filled(old(tables.Flat()), tables.Flat(), addr, addr + len, 0)
      ensures alive ==> SameRanges(old(vmrs), vmrs)
      ensures alive && old(tables.hasRoot) ==> tables.hasRoot
      ensures (old(tables.hasRoot) ==> alive) && (!alive ==> OutOfPages())
    {
      hide State, Tables.Flat, Tables.Valid, Filled;
      alive := true;
      var a := addr;
      ghost var f := tables.Flat();
      FilledNothing(f, addr, 0);
      while a < addr + len
        invariant addr <= a && a % PGSIZE == 0 && alive && (a <= addr + len || a < addr + len + PGSIZE)
        invariant Pending(k, extra) && Filled(f, tables.Flat(), addr, a, 0) && SameRanges(old(vmrs), vmrs)
        invariant old(tables.hasRoot) ==> tables.hasRoot
      {
        ghost var was, s := tables.Flat(), vmrs;
        alive := UnmapPage(a, k, extra);
        if !alive { return; }
        FilledMore(f, was, tables.Flat(), addr, a, 0);
        RangesTrans(old(vmrs), s, vmrs);
        a := a + PGSIZE;
      }
      FilledEnd(f, tables.Flat(), addr, a, addr + len, 0);
    }

    // ---------------------------------------------------------------- page faults

    /**
     __handle_page_fault: the first access to a lazily mapped page makes its entry valid and takes one count
     from its record; read is the file read that fills the page.
     */
    method HandlePageFault(addr: u64, prot: int) returns (alive: bool, ret: int, read: Option<FileRead>)
      requires Valid()
      modifies this`vmrs, this`held, tables
      ensures (alive ==> Valid()) && ret in {0, -1} && (alive && old(tables.hasRoot) ==> tables.hasRoot)
      ensures (old(tables.hasRoot) ==> alive) && (!alive ==> OutOfPages())
      ensures
        var v, page := Vpn(addr), addr / PGSIZE * PGSIZE;
        var e := old(tables.Flat())[v];
        alive ==>
          if e == 0 || !ValidUserRange(page, 1) then
            ret == -1 && tables.Flat() == old(tables.Flat()) && vmrs == old(vmrs) && read == None
          else if IsValid(e) then
            (ret == 0 <==> Grants(e, prot)) && tables.Flat() == old(tables.Flat()) && vmrs == old(vmrs) && read == None
          else
            var j := (e - vmrBase) / VMR_SIZE;
            && 0 <= j < |vmrs| && e == Ptr(vmrBase, j) && FaultedIn(old(vmrs), vmrs, j, page, read)
            && FillsPage(old(vmrs)[j], page, read)
            && tables.Flat() == old(tables.Flat())[v := PteCreate(page / PGSIZE, vmrs[j].prot)]
            && (ret == 0 <==> Grants(PteCreate(page / PGSIZE, vmrs[j].prot), prot))
    {
      hide State, Tables.Flat, Tables.Valid, PteCreate, KernelPte, Grants, FaultedIn, FillsPage, FillRequest, IsValid;
      ret, read := -1, None;
      ghost var v, f, s := Vpn(addr), tables.Flat(), vmrs;
      var vpn := addr / PGSIZE;
      var vaddr := vpn * PGSIZE;
      SamePage(addr);
      var pte;
      alive, pte := tables.WalkInternal(vaddr, false);
      if !alive { return; }
      tables.NoSlotNoEntry(v);
      if pte.None? { return; }
      tables.LoadHolds(v);
      var e := tables.Load(pte.value);
      if e == 0 || !ValidUserRange(vaddr, 1) { return; }
      if !IsValid(e) {
        ghost var j0 := RecordOf(f, vmrs, held, vmrBase, 0, 0, v);
        var j := (e - vmrBase) / VMR_SIZE;
        InUserRange(addr, mmapMax);
        read := FillRequest(vmrs[j], vaddr);
        FillRequestFills(vmrs[j], vaddr);
        KernelPteFields(vpn, SRW);
        PteValid(vpn, vmrs[j].prot);
        Released(f, vmrs, held, vmrBase, 0, 0, v, KernelPte(vpn, SRW), j);
        tables.Store(pte.value, KernelPte(vpn, SRW), v);
        VmrDecref(j);
        Replaced(tables.Flat(), vmrs, held, vmrBase, 0, 0, v, PteCreate(vpn, vmrs[j].prot));
        tables.Store(pte.value, PteCreate(vpn, vmrs[j].prot), v);
        e := PteCreate(vpn, vmrs[j].prot);
        Stored(f, v, KernelPte(vpn, SRW), e);
        FaultedInBy(s, vmrs, j, vaddr, read);
      }
      if Grants(e, prot) {
        ret := 0;
      }
    }

    // ---------------------------------------------------------------- choosing addresses

    /**
     __vm_alloc, for requests of any size.  ends is false where the source's loop never returns: its counter
     has wrapped round to 0 a second time without finding anything.
     */
    method VmAlloc(npage: nat) returns (alive: bool, ends: bool, a: nat)
      requires tables.Valid() && mmapMax <= VPNS * PGSIZE && 0 < npage <= PAGES && brk % PGSIZE == 0 && brk <= VPNS * PGSIZE
      modifies tables
      ensures tables.Valid() && tables.Flat() == old(tables.Flat()) && (old(tables.hasRoot) ==> alive && tables.hasRoot)
      ensures !alive ==> OutOfPages()
      ensures
        var answer := Answer(tables.Flat(), brk / PGSIZE, mmapMax / PGSIZE, npage);
        && (alive ==> ends == answer.Some? && (ends ==> a % PGSIZE == 0 && answer == Some(a / PGSIZE)))
        && (alive && npage <= mmapMax / PGSIZE ==> ends && Right(tables.Flat(), brk / PGSIZE, mmapMax / PGSIZE, npage, answer))
    {
      hide Tables.Flat, Tables.Valid, Outcome, TurnAt, EndPage, Right;
      ghost var f, endPage := tables.Flat(), EndPage(mmapMax / PGSIZE, npage);
      ghost var answer := Answer(f, brk / PGSIZE, mmapMax / PGSIZE, npage);
      assert answer == Outcome(f, npage, endPage, brk / PGSIZE, false);
      if npage <= mmapMax / PGSIZE {
        FittingRequest(f, brk / PGSIZE, mmapMax / PGSIZE, npage);
      }
      hide Answer;
      alive, ends := true, true;
      var end: u64 := (mmapMax - npage * PGSIZE) % TWO64;
      EndAddress(mmapMax, npage, end);
      a := brk;
      var again := false;
      while a <= end
        invariant a < TWO64 && a % PGSIZE == 0 && alive && ends && tables.Valid() && tables.Flat() == f
        invariant old(tables.hasRoot) ==> tables.hasRoot
        invariant a / PGSIZE < PAGES && answer == Outcome(f, npage, endPage, a / PGSIZE, again)
        decreases !again, TWO64 - a
      {
        var found, next;
        alive, found, next := TryAt(a, npage, end, endPage);
        if !alive { return; }
        OutcomeTurn(f, npage, endPage, a / PGSIZE, again);
        SameOrder(a, next);
        if found {
          a := next;
          return;
        }
        if next <= a {
          if again {
            ends := false;
            return;
          }
          again := true;
        }
        a := next;
      }
      OutcomeTurn(f, npage, endPage, a / PGSIZE, again);
      TurnPast(f, npage, endPage, a / PGSIZE);
      a := 0;
    }

    /** A request the search never answers, or answers with pages that cannot be faulted in at once. */
    ghost predicate MayDie(f: seq<nat>, length: nat, populate: bool)
      requires |f| == VPNS && 0 < length && brk / PGSIZE < PAGES
      reads this`brk
    {
      match Answer(f, brk / PGSIZE, mmapMax / PGSIZE, (length - 1) / PGSIZE + 1)
      case None => true
      case Some(p) => populate && !ValidUserRange(p * PGSIZE, length)
    }

    /** One turn of __vm_alloc's loop. */
    method TryAt(a: u64, npage: nat, end: u64, ghost endPage: nat) returns (alive: bool, found: bool, next: u64)
      requires tables.Valid() && 0 < npage <= PAGES && a % PGSIZE == 0 && a <= end && a / PGSIZE <= endPage && a / PGSIZE < PAGES
      modifies tables
      ensures tables.Valid() && tables.Flat() == old(tables.Flat()) && (old(tables.hasRoot) ==> alive && tables.hasRoot)
      ensures !alive ==> OutOfPages()
      ensures next % PGSIZE == 0
      ensures alive ==>
                TurnAt(tables.Flat(), npage, endPage, a / PGSIZE) == if found then Return(next / PGSIZE) else Again(next / PGSIZE)
    {
      hide Tables.Flat, Tables.Valid, Avail, Backward;
      found, next := false, a;
      var avail;
      alive, avail := PageAvail(a);
      if !alive { return; }
      WrapAddress(a, PGSIZE, 1);
      if !avail {
        next := (a + PGSIZE) % TWO64;
        return;
      }
      WrapAddress(a, (npage - 1) * PGSIZE, npage - 1);
      var last: u64 := (a + (npage - 1) * PGSIZE) % TWO64;
      var b;
      alive, b := LastInUse(a, last);
      if !alive { return; }
      SameOrder(a, b);
      if b > a {
        WrapAddress(b, PGSIZE, 1);
        next := (b + PGSIZE) % TWO64;
      } else {
        found, next := true, b;
      }
    }

    /** The backward scan of __vm_alloc. */
    method LastInUse(first: u64, last: u64) returns (alive: bool, a: u64)
      requires tables.Valid() && first % PGSIZE == 0 && last % PGSIZE == 0
      modifies tables
      ensures tables.Valid() && tables.Flat() == old(tables.Flat()) && (old(tables.hasRoot) ==> alive && tables.hasRoot)
      ensures !alive ==> OutOfPages()
      ensures a % PGSIZE == 0 && (alive ==> a / PGSIZE == Backward(tables.Flat(), first / PGSIZE, last / PGSIZE))
    {
      hide Tables.Flat, Tables.Valid, Avail;
      ghost var f := tables.Flat();
      var avail := true;
      alive, a := true, last;
      while a > first && avail
        invariant a % PGSIZE == 0 && alive && tables.Valid() && tables.Flat() == f
        invariant old(tables.hasRoot) ==> tables.hasRoot
        invariant Backward(f, first / PGSIZE, last / PGSIZE) == Backward(f, first / PGSIZE, a / PGSIZE)
        invariant !avail ==> !Avail(f, a / PGSIZE)
        decreases a, avail
      {
        alive, avail := PageAvail(a);
        if !alive { return; }
        SameOrder(first, a);
        if avail {
          PageBefore(a);
          a := a - PGSIZE;
        }
      }
      SameOrder(first, a);
    }

    method PageAvail(a: u64) returns (alive: bool, avail: bool)
      requires tables.Valid()
      modifies tables
      ensures tables.Valid() && tables.Flat() == old(tables.Flat()) && (old(tables.hasRoot) ==> alive) && (alive ==> tables.hasRoot)
      ensures !alive ==> OutOfPages()
      ensures alive ==> avail == Avail(tables.Flat(), a / PGSIZE)
    {
      hide Tables.Valid;
      alive, avail := tables.VaAvail(a);
    }

    // ---------------------------------------------------------------- mmap

    /** __vmr_alloc, with the record table in place: the first free record, or MAX_VMR. */
    method VmrAlloc(addr: nat, length: nat, file: nat, offset: nat, refcnt: nat, prot: int) returns (k: nat)
      requires |vmrs| == MAX_VMR && refcnt > 0
      modifies this`vmrs, this`held
      ensures k == MAX_VMR ==> vmrs == old(vmrs) && held == old(held) && AllTaken(vmrs)
      ensures k != MAX_VMR ==>
                && k < MAX_VMR && old(vmrs)[k].refcnt == 0 && (forall j :: 0 <= j < k ==> old(vmrs)[j].refcnt > 0)
                && vmrs == old(vmrs)[k := Vmr(addr, length, file, offset, refcnt, prot)]
                && held == FileIncref(old(held), file)
    {
      k := 0;
      while k < MAX_VMR
        invariant 0 <= k <= MAX_VMR && vmrs == old(vmrs) && held == old(held)
        invariant forall j :: 0 <= j < k ==> vmrs[j].refcnt > 0
      {
        if vmrs[k].refcnt == 0 {
          held := FileIncref(held, file);
          vmrs := vmrs[k := Vmr(addr, length, file, offset, refcnt, prot)];
          return;
        }
        k := k + 1;
      }
    }

    /** One turn of __do_mmap's first loop: the page comes to name record k, whatever it held before. */
    method MapPage(a: nat, k: nat, ghost extra: nat) returns (alive: bool)
      requires Pending(k, extra) && k < MAX_VMR && extra > 0 && a < VPNS * PGSIZE && a % PGSIZE == 0
      requires vmrs[k].addr <= a < vmrs[k].addr + vmrs[k].length
      modifies this`vmrs, this`held, tables
      ensures alive ==> Pending(k, extra - 1) && tables.Flat() == old(tables.Flat())[a / PGSIZE := Ptr(vmrBase, k)]
      ensures if alive then SameRanges(old(vmrs), vmrs) && tables.hasRoot else OutOfPages()
    {
      hide State, Tables.Flat, Tables.Valid;
      ghost var v, f := a / PGSIZE, tables.Flat();
      PageOf(a);
      var pte;
      alive, pte := tables.WalkInternal(a, true);
      if !alive { return; }
      ghost var slot := tables.SlotOf(v);
      tables.NoSlotNoEntry(v);
      tables.LoadHolds(v);
      RangesSelf(vmrs);
      StateSize(f, vmrs, held, vmrBase, k, extra);
      if tables.Load(pte.value) != 0 {
        alive := UnmapPage(a, k, extra);
        if !alive { return; }
      } else {
        Untouched(f, v);
      }
      Named(tables.Flat(), vmrs, held, vmrBase, k, extra, v);
      tables.Store(pte.value, Ptr(vmrBase, k), v);
      Stored(f, v, 0, Ptr(vmrBase, k));
    }

    /** __do_mmap's first loop: every page of the range names record k. */
    method MapRange(addr: nat, length: nat, k: nat, npage: nat) returns (alive: bool)
      requires Pending(k, npage) && k < MAX_VMR && addr % PGSIZE == 0 && 0 < length && addr + length <= VPNS * PGSIZE
      requires npage == (length - 1) / PGSIZE + 1 && vmrs[k].addr == addr && vmrs[k].length == length
      modifies this`vmrs, this`held, tables
      ensures alive ==> Pending(k, 0) && Filled(old(tables.Flat()), tables.Flat(), addr, addr + length, Ptr(vmrBase, k))
      ensures if alive then SameRanges(old(vmrs), vmrs) && tables.hasRoot else OutOfPages()
    {
      hide State, Tables.Flat, Tables.Valid, Filled;
      alive := true;
      var a := addr;
      ghost var f, n, x := tables.Flat(), npage, Ptr(vmrBase, k);
      FilledNothing(f, addr, x);
      RangesSelf(vmrs);
      StateSize(f, vmrs, held, vmrBase, k, npage);
      PagesLeft(addr, length, npage);
      while a < addr + length
        invariant addr <= a && a % PGSIZE == 0 && alive && 0 <= n && (a < addr + length ==> n > 0) && a + n * PGSIZE == addr + npage * PGSIZE
        invariant Pending(k, n) && Filled(f, tables.Flat(), addr, a, x) && SameRanges(old(vmrs), vmrs) && (a > addr ==> tables.hasRoot)
        decreases n
      {
        ghost var was, s := tables.Flat(), vmrs;
        alive := MapPage(a, k, n);
        if !alive { return; }
        FilledMore(f, was, tables.Flat(), addr, a, x);
        RangesTrans(old(vmrs), s, vmrs);
        a := a + PGSIZE;
        n := n - 1;
        PagesLeft(addr, length, npage);
      }
      FilledEnd(f, tables.Flat(), addr, a, addr + length, x);
    }

    /** One turn of __do_mmap's second loop: a page that names record k is faulted in. */
    method PopulatePage(a: nat, k: nat, prot: int) returns (alive: bool)
      requires Valid() && tables.hasRoot && k < |vmrs| && a < VPNS * PGSIZE && a % PGSIZE == 0 && HasProt(k, prot)
      requires tables.Flat()[a / PGSIZE] == Ptr(vmrBase, k)
      modifies this`vmrs, this`held, tables
      ensures alive ==> Valid() && tables.hasRoot && tables.Flat() == old(tables.Flat())[a / PGSIZE := PteCreate(a / PGSIZE, prot)]
      ensures alive ==> SameRanges(old(vmrs), vmrs)
      ensures ValidUserRange(a, 1) ==> alive
    {
      hide State, Tables.Flat, Tables.Valid, Grants, PteCreate, IsValid, FaultedIn, SameRanges;
      GrantsItself(a / PGSIZE, prot);
      ghost var s := vmrs;
      PageOf(a);
      PtrFacts(vmrBase, k) by { StateBase(tables.Flat(), vmrs, held, vmrBase, 0, 0); }
      var ret, read;
      alive, ret, read := HandlePageFault(a, prot);
      if ValidUserRange(a, 1) {
        FaultProt(s, vmrs, k, a, read);
      }
      if !alive || ret != 0 {
        alive := false;
        return;
      }
      FaultRanges(s, vmrs, k, a, read);
    }

    predicate HasProt(k: nat, prot: int)
      reads this`vmrs
    {
      k < |vmrs| && vmrs[k].prot == prot
    }

    /** MAP_POPULATE: every page of the range is faulted in; alive is false where the source asserts that this works. */
    method Populate(addr: nat, length: nat, k: nat, prot: int) returns (alive: bool)
      requires Valid() && tables.hasRoot && k < MAX_VMR && addr % PGSIZE == 0 && addr + length <= VPNS * PGSIZE && HasProt(k, prot)
      requires forall v :: 0 <= v < VPNS && addr <= v * PGSIZE < addr + length ==> tables.Flat()[v] == Ptr(vmrBase, k)
      modifies this`vmrs, this`held, tables
      ensures alive ==> Valid() && Present(old(tables.Flat()), tables.Flat(), addr, addr + length, prot) && SameRanges(old(vmrs), vmrs)
      ensures ValidUserRange(addr, length) ==> alive
    {
      hide State, Tables.Flat, Tables.Valid, Present, PteCreate, SameRanges, Ptr;
      alive := true;
      var a := addr;
      ghost var f, s0 := tables.Flat(), vmrs;
      PresentNothing(f, addr, prot);
      RangesSelf(vmrs);
      while a < addr + length
        invariant addr <= a && a % PGSIZE == 0 && alive && (a <= addr + length || a < addr + length + PGSIZE)
        invariant Valid() && tables.hasRoot && Present(f, tables.Flat(), addr, a, prot) && SameRanges(s0, vmrs)
        decreases addr + length + PGSIZE - a
      {
        ghost var was, s, v := tables.Flat(), vmrs, a / PGSIZE;
        PageOf(a);
        PresentAt(f, was, addr, a, prot, v);
        SameProt(s0, s, k);
        alive := PopulatePage(a, k, prot);
        if !alive { return; }
        PresentMore(f, was, tables.Flat(), addr, a, prot);
        RangesTrans(s0, s, vmrs);
        a := a + PGSIZE;
      }
      PresentEnd(f, tables.Flat(), addr, a, addr + length, prot);
    }

    /**
     __do_mmap: the range comes to name a record taken for it, or nothing changes.  A request larger than
     mmap_max goes astray if the search gives it a range that ends past the table; the model stops there and
     promises nothing about what is left (RangePastTable, RangeWrapped).  alive is false where the search never
     returns, or the source asserts that page table pages do not run out or that a populated page can be faulted in.
     */
    method DoMmapRange(addr: u64, length: u64, prot: int, fixed: bool, populate: bool, file: nat, offset: nat)
      returns (alive: bool, res: Placement, ghost k: nat)
      requires Valid() && 0 < length && brk % PGSIZE == 0 && brk <= VPNS * PGSIZE
      modifies this`vmrs, this`held, tables
      ensures alive && !res.Astray? ==> Valid()
      ensures !alive ==> OutOfPages() || (!fixed && MayDie(old(tables.Flat()), length, populate))
      ensures alive && res.Refused? ==> tables.Flat() == old(tables.Flat()) && vmrs == old(vmrs) && held == old(held)
      ensures alive && fixed ==> !res.Astray?
      ensures alive && fixed && res.Refused? ==>
                addr % PGSIZE != 0 || !ValidUserRange(addr, length) || AllTaken(vmrs)
      ensures alive && res.Placed? ==> Mapped(old(tables.Flat()), tables.Flat(), old(vmrs), vmrs, k, res.addr, length, prot, populate, file, offset)
      ensures alive && res.Placed? && fixed ==> res.addr == addr && addr % PGSIZE == 0 && ValidUserRange(addr, length)
      ensures alive && !fixed ==> Chosen(old(tables.Flat()), brk / PGSIZE, mmapMax / PGSIZE, length, res, old(vmrs))
    {
      hide State, Tables.Flat, Tables.Valid, Filled, Present, Answer, Right, Mapped, SameRanges;
      alive, res, k := true, Refused, 0;
      ghost var f := tables.Flat();
      var npage := (length - 1) / PGSIZE + 1;
      var start := addr;
      StateSize(f, vmrs, held, vmrBase, 0, 0);
      PagesLeft(0, length, npage);
      if fixed {
        if addr % PGSIZE != 0 || !ValidUserRange(addr, length) { return; }
      } else {
        var ends;
        alive, ends, start := VmAlloc(npage);
        alive := alive && ends;
        if !alive || start == 0 { return; }
        if npage <= mmapMax / PGSIZE {
          FitsInside(f, brk / PGSIZE, mmapMax, npage, start);
        }
      }
      var j := VmrAlloc(start, length, file, offset, npage, prot);
      if j == MAX_VMR { return; }
      if start + length > VPNS * PGSIZE {
        res := Astray(start);
        return;
      }
      k := j;
      ghost var r := vmrs[k];
      NothingExtra(f, old(vmrs), old(held), vmrBase, 0, k);
      Taken(f, old(vmrs), old(held), vmrBase, k, r);
      ghost var s := vmrs;
      alive := MapRange(start, length, j, npage);
      if !alive { return; }
      NothingExtra(tables.Flat(), vmrs, held, vmrBase, k, 0);
      StateBase(f, old(vmrs), old(held), vmrBase, 0, 0);
      MappedLazily(f, tables.Flat(), old(vmrs), vmrs, k, r, vmrBase, start, length, prot, file, offset);
      if populate {
        ghost var f1, s1 := tables.Flat(), vmrs;
        FilledRange(f, f1, start, start + length, Ptr(vmrBase, k));
        alive := Populate(start, length, j, prot);
        if !alive { return; }
        MappedPresent(f, f1, tables.Flat(), old(vmrs), s1, vmrs, k, start, length, prot, file, offset);
      }
      res := Placed(start);
    }

    // ---------------------------------------------------------------- system calls

    /** Valid, and the break is a page address inside the table. */
    ghost predicate Ready()
      reads this, tables
    {
      Valid() && brk % PGSIZE == 0 && brk <= VPNS * PGSIZE && brkMin <= VPNS * PGSIZE && brkMax <= VPNS * PGSIZE
    }

    /** do_munmap: an aligned user range becomes empty, and anything else is refused. */
    method DoMunmap(addr: nat, len: nat) returns (alive: bool, ok: bool)
      requires Ready()
      modifies this`vmrs, this`held, tables
      ensures !alive ==> OutOfPages() && !old(tables.hasRoot)
      ensures alive ==> Ready() && SameRanges(old(vmrs), vmrs) && ok == (addr % PGSIZE == 0 && ValidUserRange(addr, len))
      ensures alive && ok ==> Filled(old(tables.Flat()), tables.Flat(), addr, addr + len, 0)
      ensures alive ==> KernelKept(old(tables.Flat()), tables.Flat())
      ensures alive && !ok ==> tables.Flat() == old(tables.Flat()) && vmrs == old(vmrs) && held == old(held)
    {
      hide State, Tables.Flat, Tables.Valid, Filled, SameRanges;
      alive, ok := true, addr % PGSIZE == 0 && ValidUserRange(addr, len);
      RangesSelf(vmrs);
      ghost var f := tables.Flat();
      if ok {
        alive := DoMunmapRange(addr, len, 0, 0);
        if alive {
          FilledKeeps(f, tables.Flat(), addr, addr + len);
        }
      }
    }

    lemma FilledKeeps(f: seq<nat>, f': seq<nat>, lo: nat, hi: nat)
      requires Filled(f, f', lo, hi, 0) && firstFreePaddr <= lo && hi <= mmapMax
      ensures KernelKept(f, f')
    {
    }

    lemma MappedKeeps(f: seq<nat>, f': seq<nat>, s: seq<Vmr>, s': seq<Vmr>, k: nat, addr: nat, length: nat, prot: int,
                      populate: bool, file: nat, offset: nat)
      requires Mapped(f, f', s, s', k, addr, length, prot, populate, file, offset) && ValidUserRange(addr, length)
      ensures KernelKept(f, f')
    {
      hide Present, Filled;
    }

    /** do_mmap; haveVm is the system-wide have_vm. */
    method DoMmap(addr: u64, length: u64, prot: int, flags: Flags, file: nat, offset: nat, haveVm: bool)
      returns (alive: bool, res: MmapResult, ghost k: nat)
      requires Ready()
      modifies this`vmrs, this`held, this`brkMax, tables
      ensures alive && !res.Lost? ==> Ready()
      ensures !alive ==>
                OutOfPages()
                || (!flags.fixed && 0 < length && MayDie(old(tables.Flat()), length, !haveVm || flags.populate))
      ensures alive && res.Failed? ==> tables.Flat() == old(tables.Flat()) && vmrs == old(vmrs) && held == old(held) && brkMax == old(brkMax)
      ensures alive ==> (res == Failed(EINVAL) <==> !flags.private_ || length == 0 || offset % PGSIZE != 0)
      ensures alive ==> (res == Failed(EBADF) <==> flags.private_ && length != 0 && offset % PGSIZE == 0 && !flags.anonymous && file == 0)
      ensures alive && res.At? ==>
                && Mapped(old(tables.Flat()), tables.Flat(), old(vmrs), vmrs, k, res.addr, length, prot, !haveVm || flags.populate, file, offset)
                && (flags.fixed ==> res.addr == addr && addr % PGSIZE == 0 && ValidUserRange(addr, length)
                                    && KernelKept(old(tables.Flat()), tables.Flat()))
      ensures alive && !flags.fixed && (res.At? || res.Lost? || res == Failed(NOROOM)) ==>
                Chosen(old(tables.Flat()), brk / PGSIZE, mmapMax / PGSIZE, length,
                       match res { case At(a) => Placed(a) case Lost(a) => Astray(a) case _ => Refused }, old(vmrs))
      ensures alive && !res.Failed? ==> brkMax == if res.addr < old(brkMax) then res.addr else old(brkMax)
      ensures alive && flags.fixed && res == Failed(NOROOM) ==> addr % PGSIZE != 0 || !ValidUserRange(addr, length) || AllTaken(vmrs)
      ensures alive && res.Lost? ==> !flags.fixed
      ensures alive && res.Failed? ==> res.errno in {EINVAL, EBADF, NOROOM}
    {
      hide State, Tables.Flat, Tables.Valid, Mapped, SameRanges, Answer, Right;
      alive, k := true, 0;
      ghost var f, s := tables.Flat(), vmrs;
      if !flags.private_ || length == 0 || offset % PGSIZE != 0 {
        res := Failed(EINVAL);
        return;
      }
      if !flags.anonymous && file == 0 {
        res := Failed(EBADF);
        return;
      }
      var at;
      alive, at, k := DoMmapRange(addr, length, prot, flags.fixed, !haveVm || flags.populate, file, offset);
      if !alive || at.Refused? {
        res := Failed(NOROOM);
        return;
      }
      if flags.fixed {
        MappedKeeps(f, tables.Flat(), s, vmrs, k, at.addr, length, prot, !haveVm || flags.populate, file, offset);
      }
      res := if at.Astray? then Lost(at.addr) else At(at.addr);
      if at.addr < brkMax {
        brkMax := at.addr;
      }
    }

    /**
     __do_brk: the break goes to the requested address, kept between its bounds; pages given up become empty
     and pages gained are mapped without a file.
     */
    method DoBrk(addr: nat, haveVm: bool) returns (alive: bool, newbrk: nat, ghost k: nat)
      requires Ready()
      modifies this`vmrs, this`held, this`brk, tables
      ensures
        var was, next := if old(brk) == 0 then RoundUp(brkMin) else old(brk), RoundUp(Clip(addr, brkMin, brkMax));
        !alive ==> OutOfPages() || (was < next && (!ValidUserRange(was, next - was) || AllTaken(old(vmrs))))
      ensures alive ==> (brkMin <= addr <= brkMax ==> newbrk == addr)
      ensures alive ==> Ready() && newbrk == Clip(addr, brkMin, brkMax) && brk == RoundUp(newbrk)
      ensures
        var was := if old(brk) == 0 then RoundUp(brkMin) else old(brk);
        alive ==>
          if brk < was then Filled(old(tables.Flat()), tables.Flat(), brk, was, 0)
          else if brk > was then
            Mapped(old(tables.Flat()), tables.Flat(), old(vmrs), vmrs, k, was, brk - was, -1, !haveVm, 0, 0)
          else tables.Flat() == old(tables.Flat()) && vmrs == old(vmrs) && held == old(held)
    {
      hide State, Tables.Flat, Tables.Valid, Mapped, SameRanges, Answer, Right, Filled;
      alive, k := true, 0;
      newbrk := addr;
      if addr < brkMin {
        newbrk := brkMin;
      } else if addr > brkMax {
        newbrk := brkMax;
      }
      RoundUpMeans(brkMin);
      RoundUpMeans(newbrk);
      RoundUpWithin(brkMin, VPNS);
      RoundUpWithin(newbrk, VPNS);
      if brk == 0 {
        brk := RoundUp(brkMin);
      }
      var page := RoundUp(newbrk);
      if brk > page {
        alive := DoMunmapRange(page, brk - page, 0, 0);
      } else if brk < page {
        var at;
        alive, at, k := DoMmapRange(brk, page - brk, -1, true, !haveVm, 0, 0);
        alive := alive && at == Placed(brk);
      }
      brk := page;
    }
  }

  /** The pages among the first n whose entry is x. */
  ghost function PagesNaming(flat: seq<nat>, n: nat, x: nat): set<int>
    requires n <= |flat|
  {
    set v | 0 <= v < n && flat[v] == x
  }

  /** In every state between calls a record counts exactly the pages that name it, so a free one is named by none. */
  lemma RecordsCountTheirPages(flat: seq<nat>, vmrs: seq<Vmr>, held: map<nat, nat>, base: nat, j: nat)
    requires State(flat, vmrs, held, base, 0, 0) && j < MAX_VMR
    ensures vmrs[j].refcnt == |PagesNaming(flat, VPNS, Ptr(base, j))|
    ensures vmrs[j].refcnt == 0 <==> forall v :: 0 <= v < VPNS ==> flat[v] != Ptr(base, j)
  {
    hide EntriesOk, FilesHeld;
    assert RecordCounts(flat, vmrs, base, j, 0, 0);
    var x := Ptr(base, j);
    CountIsSize(flat, VPNS, x);
    if v :| 0 <= v < VPNS && flat[v] == x {
      CountSome(flat, VPNS, v);
    }
  }

  lemma {:induction false} CountIsSize(flat: seq<nat>, n: nat, x: nat)
    requires n <= |flat|
    ensures Count(flat, n, x) == |PagesNaming(flat, n, x)|
    ensures (forall v :: 0 <= v < n ==> flat[v] != x) ==> Count(flat, n, x) == 0
  {
    if n > 0 {
      CountIsSize(flat, n - 1, x);
      var s := PagesNaming(flat, n - 1, x);
      assert PagesNaming(flat, n, x) == if flat[n - 1] == x then s + {n - 1} else s;
    } else {
      assert PagesNaming(flat, n, x) == {};
    }
  }

  /** The flags of mmap that are looked at. */
  datatype Flags = Flags(fixed: bool, private_: bool, anonymous: bool, populate: bool)

  const EINVAL: int := 22
  const EBADF: int := 9

  const NOROOM: int := 1    // __do_mmap returns -1

  datatype MmapResult = At(addr: nat) | Failed(errno: int) | Lost(addr: nat)

  /** What __do_mmap makes of a request. */
  datatype Placement = Placed(addr: nat) | Refused | Astray(addr: nat)

  /**
   Where a request without a fixed address goes, on pages lo to limit: where the search says, which is right if the
   request is no larger than the limit.  A larger one goes astray exactly if its range ends past the table.
   */
  ghost predicate Chosen(f: seq<nat>, lo: nat, limit: nat, length: nat, res: Placement, vmrs: seq<Vmr>)
    requires |f| == VPNS && 0 < length && lo < PAGES
  {
    var npage := (length - 1) / PGSIZE + 1;
    var answer := Answer(f, lo, limit, npage);
    && (npage <= limit ==> Right(f, lo, limit, npage, answer))
    && match res
       case Placed(a) => a != 0 && a % PGSIZE == 0 && answer == Some(a / PGSIZE) && a + length <= VPNS * PGSIZE
       case Refused => answer.Some? && (answer == Some(0) || AllTaken(vmrs))
       case Astray(a) =>
         && a != 0 && a % PGSIZE == 0 && answer == Some(a / PGSIZE)
         && limit < npage && a + length > VPNS * PGSIZE
  }

  /** The break is kept between its bounds, the lower one first. */
  function Clip(addr: nat, lo: nat, hi: nat): nat {
    if addr < lo then lo else if addr > hi then hi else addr
  }

  /** The address between the bounds that is nearest to the one asked for. */
  lemma ClipIsNearest(addr: nat, lo: nat, hi: nat, x: nat)
    requires lo <= x <= hi
    ensures
      var c := Clip(addr, lo, hi);
      lo <= c <= hi && (if addr < c then c - addr else addr - c) <= if addr < x then x - addr else addr - x
  {
  }

  /** ROUNDUP(a, RISCV_PGSIZE); for 0 the source's wrap-around gives 0 too. */
  function RoundUp(a: nat): nat {
    if a == 0 then 0 else ((a - 1) / PGSIZE + 1) * PGSIZE
  }

  /** The least page address at or above a. */
  lemma RoundUpMeans(a: nat)
    ensures RoundUp(a) % PGSIZE == 0 && a <= RoundUp(a) < a + PGSIZE
  {
  }

  lemma RoundUpWithin(a: nat, n: nat)
    requires a <= n * PGSIZE
    ensures RoundUp(a) <= n * PGSIZE
  {
  }

  /**
   Naming record k from every page of a range that ends past the table, and so from pages below the range,
   leaves no state of the invariant.
   */
  lemma RangePastTable(f: seq<nat>, vmrs: seq<Vmr>, held: map<nat, nat>, base: nat, k: nat, p: nat, length: nat, j: nat, extra: int)
    requires |f| == VPNS && k < |vmrs| && vmrs[k].addr == p * PGSIZE && vmrs[k].length == length
    requires 0 < p && 0 < length && p * PGSIZE + length > VPNS * PGSIZE
    requires forall q :: p <= q && q * PGSIZE < p * PGSIZE + length ==> f[q % VPNS] == Ptr(base, k)
    ensures !State(f, vmrs, held, base, j, extra)
  {
    var q := if p <= VPNS then VPNS else p;
    var v := q % VPNS;
    assert f[q % VPNS] == Ptr(base, k);
    if State(f, vmrs, held, base, j, extra) {
      PtrFacts(base, k);
      assert EntryOk(f, vmrs, base, v);
      var i :| 0 <= i < |vmrs| && f[v] == Ptr(base, i) && vmrs[i].addr <= v * PGSIZE < vmrs[i].addr + vmrs[i].length;
      SamePtr(base, i, k);
    }
  }

  /** Nor does taking a record for a range that wraps round the address space, from which no page comes to name it. */
  lemma RangeWrapped(f: seq<nat>, vmrs: seq<Vmr>, held: map<nat, nat>, held': map<nat, nat>, base: nat, k: nat, r: Vmr)
    requires State(f, vmrs, held, base, 0, 0) && k < MAX_VMR && vmrs[k].refcnt == 0 && r.refcnt > 0
    ensures |vmrs| == MAX_VMR && !State(f, vmrs[k := r], held', base, 0, 0)
  {
    hide State;
    CountIs(f, vmrs, held, base, k);
    if State(f, vmrs[k := r], held', base, 0, 0) {
      CountIs(f, vmrs[k := r], held', base, k);
    }
  }

  lemma CountIs(f: seq<nat>, vmrs: seq<Vmr>, held: map<nat, nat>, base: nat, k: nat)
    requires State(f, vmrs, held, base, 0, 0) && k < MAX_VMR
    ensures |f| == VPNS && |vmrs| == MAX_VMR && vmrs[k].refcnt == Count(f, VPNS, Ptr(base, k))
  {
    assert RecordCounts(f, vmrs, base, k, 0, 0);
  }

  /** No mapping record is free. */
  predicate AllTaken(s: seq<Vmr>) {
    forall j :: 0 <= j < |s| ==> s[j].refcnt > 0
  }

  /** What a successful mapping leaves: a record for it, and its pages lazy, or present if populated. */
  ghost predicate Mapped(f: seq<nat>, f': seq<nat>, s: seq<Vmr>, s': seq<Vmr>, k: nat, addr: nat, length: nat, prot: int,
                         populate: bool, file: nat, offset: nat)
  {
    && k < |s| == |s'| && s[k].refcnt == 0 && s'[k].(refcnt := 0) == Vmr(addr, length, file, offset, 0, prot)
    && (forall j :: 0 <= j < |s| && j != k ==> s'[j].(refcnt := 0) == s[j].(refcnt := 0) && s'[j].refcnt <= s[j].refcnt)
    && |f'| == |f| == VPNS
    && (forall v :: 0 <= v < |f| && !(addr <= v * PGSIZE < addr + length) ==> f'[v] == f[v])
    && (populate ==> Present(f, f', addr, addr + length, prot))
    && (!populate ==> exists x :: x != 0 && !IsValid(x) && Filled(f, f', addr, addr + length, x))
  }

  /** A lazy mapping: record k, free before, is taken, and the pages name it. */
  lemma MappedLazily(f: seq<nat>, f': seq<nat>, s: seq<Vmr>, s': seq<Vmr>, k: nat, r: Vmr, base: nat, addr: nat, length: nat, prot: int,
                     file: nat, offset: nat)
    requires k < |s| && s[k].refcnt == 0 && SameRanges(s[k := r], s') && r.(refcnt := 0) == Vmr(addr, length, file, offset, 0, prot)
    requires |f| == VPNS && BaseOk(base) && Filled(f, f', addr, addr + length, Ptr(base, k))
    ensures Mapped(f, f', s, s', k, addr, length, prot, false, file, offset)
  {
    PtrFacts(base, k);
    var was := s[k := r];
    assert forall j :: 0 <= j < |s| ==> s'[j].(refcnt := 0) == was[j].(refcnt := 0);
  }

  /** A populated one. */
  lemma MappedPresent(f: seq<nat>, f1: seq<nat>, f2: seq<nat>, s: seq<Vmr>, s1: seq<Vmr>, s2: seq<Vmr>, k: nat, addr: nat, length: nat,
                      prot: int, file: nat, offset: nat)
    requires Mapped(f, f1, s, s1, k, addr, length, prot, false, file, offset) && SameRanges(s1, s2)
    requires Present(f1, f2, addr, addr + length, prot)
    ensures Mapped(f, f2, s, s2, k, addr, length, prot, true, file, offset)
  {
    hide PteCreate, IsValid;
    var x :| x != 0 && !IsValid(x) && Filled(f, f1, addr, addr + length, x);
    PresentOver(f, f1, f2, addr, addr + length, x, prot);
    forall j | 0 <= j < |s| && j != k
      ensures s2[j].(refcnt := 0) == s[j].(refcnt := 0) && s2[j].refcnt <= s[j].refcnt
    {
      assert s1[j].(refcnt := 0) == s[j].(refcnt := 0);
    }
    assert s1[k].(refcnt := 0) == s2[k].(refcnt := 0);
  }

  lemma FitsInside(f: seq<nat>, lo: nat, hi: nat, npage: nat, a: nat)
    requires |f| == VPNS && a % PGSIZE == 0 && a != 0 && Right(f, lo, hi / PGSIZE, npage, Some(a / PGSIZE))
    ensures a + npage * PGSIZE <= hi
  {
  }

  lemma FilledRange(f: seq<nat>, f': seq<nat>, lo: nat, hi: nat, x: nat)
    requires Filled(f, f', lo, hi, x)
    ensures |f'| == |f| && forall v :: 0 <= v < |f| && lo <= v * PGSIZE < hi ==> f'[v] == x
  {
  }

  lemma PresentOver(f: seq<nat>, f1: seq<nat>, f2: seq<nat>, lo: nat, hi: nat, x: nat, prot: int)
    requires Filled(f, f1, lo, hi, x) && Present(f1, f2, lo, hi, prot)
    ensures Present(f, f2, lo, hi, prot)
  {
    hide PteCreate;
  }

  lemma StateBase(flat: seq<nat>, vmrs: seq<Vmr>, held: map<nat, nat>, base: nat, k: nat, extra: int)
    requires State(flat, vmrs, held, base, k, extra)
    ensures BaseOk(base)
  {
  }

  /** Pages that start from lo up to hi are mapped with this protection, the others hold what they held. */
  ghost predicate Present(f: seq<nat>, f': seq<nat>, lo: nat, hi: nat, prot: int) {
    |f'| == |f| && forall v :: 0 <= v < |f| ==> f'[v] == if lo <= v * PGSIZE < hi then PteCreate(v, prot) else f[v]
  }

  lemma PresentNothing(f: seq<nat>, lo: nat, prot: int)
    ensures Present(f, f, lo, lo, prot)
  {
  }

  lemma FaultRanges(s: seq<Vmr>, s': seq<Vmr>, j: nat, page: nat, read: Option<FileRead>)
    requires FaultedIn(s, s', j, page, read)
    ensures SameRanges(s, s')
  {
  }

  /** A mapping grants the access it was made with. */
  lemma GrantsItself(ppn: nat, prot: int)
    ensures Grants(PteCreate(ppn, prot), prot)
  {
    GrantsMeans(ppn, prot, prot);
  }

  lemma FaultProt(s: seq<Vmr>, s': seq<Vmr>, j: nat, page: nat, read: Option<FileRead>)
    requires FaultedIn(s, s', j, page, read)
    ensures |s'| == |s| && s'[j].prot == s[j].prot
  {
  }

  lemma SameProt(s: seq<Vmr>, s': seq<Vmr>, k: nat)
    requires SameRanges(s, s') && k < |s|
    ensures |s'| == |s| && s'[k].prot == s[k].prot
  {
    assert s'[k].(refcnt := 0) == s[k].(refcnt := 0);
  }

  lemma PresentMore(f: seq<nat>, f1: seq<nat>, f2: seq<nat>, lo: nat, a: nat, prot: int)
    requires Present(f, f1, lo, a, prot) && lo <= a && a % PGSIZE == 0 && a / PGSIZE < |f1|
    requires f2 == f1[a / PGSIZE := PteCreate(a / PGSIZE, prot)]
    ensures Present(f, f2, lo, a + PGSIZE, prot)
  {
    hide PteCreate;
    forall v | 0 <= v < |f|
      ensures f2[v] == if lo <= v * PGSIZE < a + PGSIZE then PteCreate(v, prot) else f[v]
    {
      assert a / PGSIZE * PGSIZE == a;
    }
  }

  lemma PresentEnd(f: seq<nat>, f': seq<nat>, lo: nat, a: nat, hi: nat, prot: int)
    requires Present(f, f', lo, a, prot) && a % PGSIZE == 0 && lo % PGSIZE == 0 && hi <= a < hi + PGSIZE
    ensures Present(f, f', lo, hi, prot)
  {
    hide PteCreate;
    forall v | 0 <= v < |f|
      ensures lo <= v * PGSIZE < a <==> lo <= v * PGSIZE < hi
    {
      assert a / PGSIZE * PGSIZE == a;
    }
  }

  lemma PresentAt(f: seq<nat>, f': seq<nat>, lo: nat, a: nat, prot: int, v: nat)
    requires Present(f, f', lo, a, prot) && v < |f| && v * PGSIZE == a
    ensures f'[v] == f[v]
  {
  }

  /** Pages that start from lo up to hi hold x, the others what they held. */
  ghost predicate Filled(f: seq<nat>, f': seq<nat>, lo: nat, hi: nat, x: nat) {
    |f'| == |f| && forall v :: 0 <= v < |f| ==> f'[v] == if lo <= v * PGSIZE < hi then x else f[v]
  }

  lemma FilledNothing(f: seq<nat>, lo: nat, x: nat)
    ensures Filled(f, f, lo, lo, x)
  {
  }

  lemma FilledMore(f: seq<nat>, f1: seq<nat>, f2: seq<nat>, lo: nat, a: nat, x: nat)
    requires Filled(f, f1, lo, a, x) && lo <= a && a % PGSIZE == 0 && a / PGSIZE < |f1| && f2 == f1[a / PGSIZE := x]
    ensures Filled(f, f2, lo, a + PGSIZE, x)
  {
    forall v | 0 <= v < |f|
      ensures f2[v] == if lo <= v * PGSIZE < a + PGSIZE then x else f[v]
    {
      assert a / PGSIZE * PGSIZE == a;
    }
  }

  lemma FilledEnd(f: seq<nat>, f': seq<nat>, lo: nat, a: nat, hi: nat, x: nat)
    requires Filled(f, f', lo, a, x) && a % PGSIZE == 0 && lo % PGSIZE == 0 && hi <= a < hi + PGSIZE
    ensures Filled(f, f', lo, hi, x)
  {
    forall v | 0 <= v < |f|
      ensures lo <= v * PGSIZE < a <==> lo <= v * PGSIZE < hi
    {
      assert a / PGSIZE * PGSIZE == a;
    }
  }

  /** npage pages cover the range, and no fewer. */
  lemma PagesLeft(addr: nat, length: nat, npage: nat)
    requires 0 < length && npage == (length - 1) / PGSIZE + 1
    ensures addr + (npage - 1) * PGSIZE < addr + length <= addr + npage * PGSIZE
  {
  }

  lemma StateSize(flat: seq<nat>, vmrs: seq<Vmr>, held: map<nat, nat>, base: nat, k: nat, extra: int)
    requires State(flat, vmrs, held, base, k, extra)
    ensures |vmrs| == MAX_VMR
  {
  }

  lemma RangesSelf(s: seq<Vmr>)
    ensures SameRanges(s, s)
  {
  }

  // ---------------------------------------------------------------- addresses and pages

  /** The unsigned end of the search lies in its last page. */
  lemma EndAddress(mmapMax: nat, npage: nat, end: u64)
    requires mmapMax <= VPNS * PGSIZE && 0 < npage <= PAGES && end == (mmapMax - npage * PGSIZE) % TWO64
    ensures end / PGSIZE == EndPage(mmapMax / PGSIZE, npage)
    ensures forall a: u64 :: a % PGSIZE == 0 ==> (a <= end <==> a / PGSIZE <= EndPage(mmapMax / PGSIZE, npage))
  {
    var m, o := mmapMax / PGSIZE, mmapMax % PGSIZE;
    var k := if npage <= m then 0 else -1;
    var e := m - npage - k * PAGES;
    DivUnique(m - npage, PAGES, k, e);
    DivUnique(mmapMax - npage * PGSIZE, TWO64, k, e * PGSIZE + o);
    DivUnique(e * PGSIZE + o, PGSIZE, e, o);
  }

  /** Unsigned addition of n pages. */
  lemma WrapAddress(a: u64, d: nat, n: nat)
    requires a % PGSIZE == 0 && d == n * PGSIZE && n <= PAGES
    ensures (a + d) % TWO64 / PGSIZE == (a / PGSIZE + n) % PAGES && (a + d) % TWO64 % PGSIZE == 0
  {
    var x := a / PGSIZE + n;
    var k := if x < PAGES then 0 else if x < 2 * PAGES then 1 else 2;
    DivUnique(x, PAGES, k, x - k * PAGES);
    DivUnique(a + d, TWO64, k, (x - k * PAGES) * PGSIZE);
    DivUnique((x - k * PAGES) * PGSIZE, PGSIZE, x - k * PAGES, 0);
  }

  lemma SameOrder(a: u64, b: u64)
    requires a % PGSIZE == 0 && b % PGSIZE == 0
    ensures (b > a <==> b / PGSIZE > a / PGSIZE) && a / PGSIZE < PAGES && b / PGSIZE < PAGES
  {
  }

  lemma PageBefore(a: u64)
    requires a % PGSIZE == 0 && 0 < a
    ensures PGSIZE <= a && (a - PGSIZE) / PGSIZE == a / PGSIZE - 1 && (a - PGSIZE) % PGSIZE == 0
  {
    DivUnique(a - PGSIZE, PGSIZE, a / PGSIZE - 1, 0);
  }

  datatype FileRead = FileRead(file: nat, offset: nat, length: nat)

  /** The part of the file behind a page of the mapping; the rest of the page is zero. */
  function FillRequest(r: Vmr, page: nat): Option<FileRead>
    requires r.addr <= page < r.addr + r.length
  {
    if r.file == 0 then None
    else
      var rest := r.length - (page - r.addr);
      Some(FileRead(r.file, page - r.addr + r.offset, if rest < PGSIZE then rest else PGSIZE))
  }

  /**
   Each byte of the page that the mapping covers is the byte of the file that the mapping puts there: byte b of the page is
   byte page + b - addr of the mapping, which is byte offset + page + b - addr of the file.
   */
  ghost predicate FillsPage(r: Vmr, page: nat, read: Option<FileRead>) {
    if r.file == 0 then read == None
    else
      && read.Some? && read.value.file == r.file && read.value.length <= PGSIZE && page + read.value.length <= r.addr + r.length
      && forall b :: 0 <= b < PGSIZE ==> ByteFills(r, page, read.value, b)
  }

  ghost predicate ByteFills(r: Vmr, page: nat, read: FileRead, b: nat) {
    r.addr <= page + b < r.addr + r.length ==> b < read.length && read.offset + b == r.offset + (page + b - r.addr)
  }

  lemma FillRequestFills(r: Vmr, page: nat)
    requires r.addr <= page < r.addr + r.length
    ensures FillsPage(r, page, FillRequest(r, page))
  {
  }

  /** For instance the second page of a mapping is filled from the second page of its file. */
  lemma SecondPage(r: Vmr)
    requires r.file != 0 && r.offset == 0 && r.addr % PGSIZE == 0 && 2 * PGSIZE <= r.length
    ensures FillRequest(r, r.addr + PGSIZE) == Some(FileRead(r.file, PGSIZE, PGSIZE))
  {
  }

  /** Record j loses one count, no other record changes, and the page is filled with what j maps there. */
  ghost predicate FaultedIn(s: seq<Vmr>, s': seq<Vmr>, j: nat, page: nat, read: Option<FileRead>) {
    && j < |s| && s[j].refcnt > 0 && s' == s[j := Decref(s[j])]
    && s[j].addr <= page < s[j].addr + s[j].length && read == FillRequest(s[j], page)
  }

  lemma FaultedInBy(s: seq<Vmr>, s': seq<Vmr>, j: nat, page: nat, read: Option<FileRead>)
    requires j < |s| && s[j].refcnt > 0 && s' == s[j := Decref(s[j])]
    requires s[j].addr <= page < s[j].addr + s[j].length && read == FillRequest(s[j], page)
    ensures FaultedIn(s, s', j, page, read)
  {
  }

  lemma Stored(f: seq<nat>, v: nat, a: nat, b: nat)
    requires v < |f|
    ensures f[v := a][v := b] == f[v := b]
  {
  }

  /** The walk only looks at the page of an address. */
  lemma SamePage(addr: u64)
    ensures addr / PGSIZE * PGSIZE < TWO64 && Vpn(addr / PGSIZE * PGSIZE) == Vpn(addr)
    ensures addr / PGSIZE * PGSIZE / PGSIZE == addr / PGSIZE
  {
    DivUnique(addr / PGSIZE * PGSIZE, PGSIZE, addr / PGSIZE, 0);
  }

  lemma InUserRange(addr: u64, max: nat)
    requires addr / PGSIZE * PGSIZE + 1 <= max <= VPNS * PGSIZE
    ensures Vpn(addr) == addr / PGSIZE
  {
    DivUnique(addr / PGSIZE, VPNS, 0, addr / PGSIZE);
  }

  /** Records may lose counts but keep what they describe. */
  ghost predicate SameRanges(s: seq<Vmr>, s': seq<Vmr>) {
    |s'| == |s| && forall j :: 0 <= j < |s| ==> s'[j].(refcnt := 0) == s[j].(refcnt := 0) && s'[j].refcnt <= s[j].refcnt
  }

  lemma RangesTrans(s: seq<Vmr>, s1: seq<Vmr>, s2: seq<Vmr>)
    requires SameRanges(s, s1) && SameRanges(s1, s2)
    ensures SameRanges(s, s2)
  {
    forall j | 0 <= j < |s|
      ensures s2[j].(refcnt := 0) == s[j].(refcnt := 0) && s2[j].refcnt <= s[j].refcnt
    {
      assert s1[j].(refcnt := 0) == s[j].(refcnt := 0);
    }
  }

  function NoVmr(): Vmr {
    Vmr(0, 0, 0, 0, 0, 0)
  }

  lemma PageOf(a: nat)
    requires a < VPNS * PGSIZE && a % PGSIZE == 0
    ensures a < TWO64 && Vpn(a) == a / PGSIZE < VPNS && a / PGSIZE * PGSIZE == a
  {
    DivUnique(a / PGSIZE, VPNS, 0, a / PGSIZE);
  }

  lemma Untouched(flat: seq<nat>, v: nat)
    requires v < |flat| && flat[v] == 0
    ensures flat[v := 0] == flat
  {
  }

  lemma {:induction false} NoneNamed(flat: seq<nat>, n: nat, x: nat)
    requires n <= |flat| && x != 0 && !IsValid(x) && forall v :: 0 <= v < |flat| ==> flat[v] == 0 || IsValid(flat[v])
    ensures Count(flat, n, x) == 0
  {
    if n > 0 {
      NoneNamed(flat, n - 1, x);
    }
  }

  lemma {:induction false} NoneHeld(vmrs: seq<Vmr>, n: nat, f: nat)
    requires n <= |vmrs| && forall j :: 0 <= j < |vmrs| ==> vmrs[j].refcnt == 0
    ensures Holders(vmrs, n, f) == 0
  {
    if n > 0 {
      NoneHeld(vmrs, n - 1, f);
    }
  }

  lemma Unused(flat: seq<nat>, vmrs: seq<Vmr>, base: nat)
    requires |flat| == VPNS && |vmrs| == MAX_VMR && BaseOk(base)
    requires (forall v :: 0 <= v < VPNS ==> flat[v] == 0 || IsValid(flat[v])) && forall j :: 0 <= j < |vmrs| ==> vmrs[j].refcnt == 0
    ensures State(flat, vmrs, map[], base, 0, 0)
  {
    forall j | 0 <= j < |vmrs|
      ensures RecordCounts(flat, vmrs, base, j, 0, 0)
    {
      PtrFacts(base, j);
      NoneNamed(flat, VPNS, Ptr(base, j));
    }
    var held: map<nat, nat> := map[];
    forall f | 1 <= f
      ensures Held(held, f) == Holders(vmrs, |vmrs|, f)
    {
      NoneHeld(vmrs, |vmrs|, f);
    }
  }
}
