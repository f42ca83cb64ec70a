/**
 Lazy mappings of bbl/vm.c: an invalid, nonzero page table entry is the address of the mapping record
 its page belongs to, and the record counts the entries that name it.
 */
module VmRegions {
  import opened Basics
  import opened Words
  import opened PageTable

  const VMR_SIZE: int := 40
  const MAX_VMR: int := 102      // records in a page

  const PROT_RWX: int := 8

  /** file 0 is no file. */
  datatype Vmr = Vmr(addr: nat, length: nat, file: nat, offset: nat, refcnt: nat, prot: int)

  /** The records of four words and two halves that fit in a page. */
  lemma RecordsFillAPage()
    ensures VMR_SIZE == 4 * 8 + 2 * 4 && MAX_VMR * VMR_SIZE <= PGSIZE < (MAX_VMR + 1) * VMR_SIZE
  {
  }

  // ---------------------------------------------------------------- names and counts

  /** The address of record k. */
  function Ptr(base: nat, k: nat): nat {
    base + k * VMR_SIZE
  }

  /** The table is aligned, so record addresses are never valid entries. */
  predicate BaseOk(base: nat) {
    base > 0 && base % PGSIZE == 0
  }

  lemma PtrFacts(base: nat, k: nat)
    requires BaseOk(base)
    ensures Ptr(base, k) != 0 && !IsValid(Ptr(base, k))
    ensures (Ptr(base, k) - base) / VMR_SIZE == k && (Ptr(base, k) - base) % VMR_SIZE == 0
  {
    DivUnique(Ptr(base, k) - base, VMR_SIZE, k, 0);
    DivUnique(Ptr(base, k), 2, base / PGSIZE * 0x800 + k * 20, 0);
  }

  /** How many of the first n entries are x. */
  function Count(flat: seq<nat>, n: nat, x: nat): (c: nat)
    requires n <= |flat|
    ensures c <= n
  {
    if n == 0 then 0 else Count(flat, n - 1, x) + Bit(flat[n - 1] == x)
  }

  lemma {:induction false} CountStore(flat: seq<nat>, n: nat, v: nat, e: nat, x: nat)
    requires n <= |flat| && v < |flat|
    ensures Count(flat[v := e], n, x) + Bit(v < n && flat[v] == x) == Count(flat, n, x) + Bit(v < n && e == x)
  {
    if n > 0 {
      CountStore(flat, n - 1, v, e, x);
    }
  }

  lemma {:induction false} CountSome(flat: seq<nat>, n: nat, v: nat)
    requires v < n <= |flat|
    ensures Count(flat, n, flat[v]) >= 1
  {
    if v < n - 1 {
      CountSome(flat, n - 1, v);
    }
  }

  // ---------------------------------------------------------------- the invariant

  ghost predicate RecordCounts(flat: seq<nat>, vmrs: seq<Vmr>, base: nat, j: nat, k: nat, extra: int)
    requires |flat| == VPNS && j < |vmrs|
  {
    vmrs[j].refcnt == Count(flat, VPNS, Ptr(base, j)) + if j == k then extra else 0
  }

  /** Every record counts the entries that name it; record k counts `extra` more. */
  ghost predicate Counted(flat: seq<nat>, vmrs: seq<Vmr>, base: nat, k: nat, extra: int)
    requires |flat| == VPNS
  {
    forall j :: 0 <= j < |vmrs| ==> RecordCounts(flat, vmrs, base, j, k, extra)
  }

  /** An entry is empty, valid, or names a record one of whose pages it is. */
  ghost predicate EntryOk(flat: seq<nat>, vmrs: seq<Vmr>, base: nat, v: nat)
    requires |flat| == VPNS && v < VPNS
  {
    flat[v] == 0 || IsValid(flat[v]) ||
    exists k :: 0 <= k < |vmrs| && flat[v] == Ptr(base, k) && vmrs[k].addr <= v * PGSIZE < vmrs[k].addr + vmrs[k].length
  }

  ghost predicate EntriesOk(flat: seq<nat>, vmrs: seq<Vmr>, base: nat)
    requires |flat| == VPNS
  {
    forall v :: 0 <= v < VPNS ==> EntryOk(flat, vmrs, base, v)
  }

  /** Live records with this file, among the first n. */
  function Holders(vmrs: seq<Vmr>, n: nat, file: nat): (c: nat)
    requires n <= |vmrs|
  {
    if n == 0 then 0 else Holders(vmrs, n - 1, file) + Bit(vmrs[n - 1].refcnt > 0 && vmrs[n - 1].file == file)
  }

  lemma {:induction false} HoldersUpdated(vmrs: seq<Vmr>, n: nat, k: nat, r: Vmr, file: nat)
    requires n <= |vmrs| && k < |vmrs|
    ensures Holders(vmrs[k := r], n, file) + Bit(k < n && vmrs[k].refcnt > 0 && vmrs[k].file == file)
            == Holders(vmrs, n, file) + Bit(k < n && r.refcnt > 0 && r.file == file)
  {
    if n > 0 {
      HoldersUpdated(vmrs, n - 1, k, r, file);
    }
  }

  /** References on a file. */
  function Held(held: map<nat, nat>, file: nat): nat {
    if file in held then held[file] else 0
  }

  /** The references taken on each file are those of the live records. */
  ghost predicate FilesHeld(vmrs: seq<Vmr>, held: map<nat, nat>) {
    forall f :: 1 <= f ==> Held(held, f) == Holders(vmrs, |vmrs|, f)
  }

  function FileIncref(held: map<nat, nat>, file: nat): map<nat, nat> {
    if file == 0 then held else held[file := Held(held, file) + 1]
  }

  function FileDecref(held: map<nat, nat>, file: nat): map<nat, nat> {
    if file == 0 || Held(held, file) == 0 then held else held[file := Held(held, file) - 1]
  }

  /** __vmr_decref by one, on values: the file is given back exactly when the count reaches zero. */
  function Decref(v: Vmr): Vmr
    requires v.refcnt > 0
  {
    v.(refcnt := v.refcnt - 1)
  }

  ghost predicate State(flat: seq<nat>, vmrs: seq<Vmr>, held: map<nat, nat>, base: nat, k: nat, extra: int) {
    && |flat| == VPNS && |vmrs| == MAX_VMR && BaseOk(base)
    && Counted(flat, vmrs, base, k, extra) && EntriesOk(flat, vmrs, base) && FilesHeld(vmrs, held)
  }

  // ---------------------------------------------------------------- steps

  lemma RecordOf(flat: seq<nat>, vmrs: seq<Vmr>, held: map<nat, nat>, base: nat, k: nat, extra: int, v: nat) returns (j: nat)
    requires State(flat, vmrs, held, base, k, extra) && 0 <= extra && v < VPNS && flat[v] != 0 && !IsValid(flat[v])
    ensures j < MAX_VMR == |vmrs| && flat[v] == Ptr(base, j) && base <= flat[v] && (flat[v] - base) / VMR_SIZE == j
    ensures vmrs[j].refcnt >= 1 && vmrs[j].addr <= v * PGSIZE < vmrs[j].addr + vmrs[j].length
  {
    assert EntryOk(flat, vmrs, base, v);
    j :| 0 <= j < |vmrs| && flat[v] == Ptr(base, j) && vmrs[j].addr <= v * PGSIZE < vmrs[j].addr + vmrs[j].length;
    PtrFacts(base, j);
    CountSome(flat, VPNS, v);
    assert RecordCounts(flat, vmrs, base, j, k, extra);
  }

  /** Which record an entry names is not in doubt. */
  lemma SamePtr(base: nat, i: nat, j: nat)
    requires Ptr(base, i) == Ptr(base, j)
    ensures i == j
  {
  }

  lemma CountedAfter(flat: seq<nat>, vmrs: seq<Vmr>, base: nat, k: nat, extra: int, v: nat, e: nat, j: nat)
    requires |flat| == VPNS && v < VPNS && BaseOk(base) && j < |vmrs| && vmrs[j].refcnt >= 1
    requires Counted(flat, vmrs, base, k, extra) && flat[v] == Ptr(base, j) && (e == 0 || IsValid(e))
    ensures Counted(flat[v := e], vmrs[j := Decref(vmrs[j])], base, k, extra)
  {
    var flat', vmrs' := flat[v := e], vmrs[j := Decref(vmrs[j])];
    forall i | 0 <= i < |vmrs|
      ensures RecordCounts(flat', vmrs', base, i, k, extra)
    {
      assert RecordCounts(flat, vmrs, base, i, k, extra);
      PtrFacts(base, i);
      CountStore(flat, VPNS, v, e, Ptr(base, i));
      if Ptr(base, i) == Ptr(base, j) {
        SamePtr(base, i, j);
      }
    }
  }

  lemma HeldAfter(vmrs: seq<Vmr>, held: map<nat, nat>, j: nat)
    requires FilesHeld(vmrs, held) && j < |vmrs| && vmrs[j].refcnt >= 1
    ensures FilesHeld(vmrs[j := Decref(vmrs[j])], if vmrs[j].refcnt == 1 then FileDecref(held, vmrs[j].file) else held)
  {
    var r := Decref(vmrs[j]);
    var vmrs', held' := vmrs[j := r], if vmrs[j].refcnt == 1 then FileDecref(held, vmrs[j].file) else held;
    forall f | 1 <= f
      ensures Held(held', f) == Holders(vmrs', |vmrs'|, f)
    {
      HoldersUpdated(vmrs, |vmrs|, j, r, f);
      assert Held(held, f) == Holders(vmrs, |vmrs|, f);
    }
  }

  /** Records keep their ranges, and one entry becomes empty or valid. */
  lemma EntriesAfter(flat: seq<nat>, vmrs: seq<Vmr>, vmrs': seq<Vmr>, base: nat, v: nat, e: nat)
    requires |flat| == VPNS && v < VPNS && EntriesOk(flat, vmrs, base) && (e == 0 || IsValid(e)) && |vmrs'| == |vmrs|
    requires forall i :: 0 <= i < |vmrs| ==> vmrs'[i].addr == vmrs[i].addr && vmrs'[i].length == vmrs[i].length
    ensures EntriesOk(flat[v := e], vmrs', base)
  {
    var flat' := flat[v := e];
    forall w | 0 <= w < VPNS
      ensures EntryOk(flat', vmrs', base, w)
    {
      assert EntryOk(flat, vmrs, base, w);
    }
  }

  /** An entry naming record j is replaced by an empty or valid one, and j gives up one count. */
  lemma Released(flat: seq<nat>, vmrs: seq<Vmr>, held: map<nat, nat>, base: nat, k: nat, extra: int, v: nat, e: nat, j: nat)
    requires State(flat, vmrs, held, base, k, extra) && v < VPNS && j < MAX_VMR && vmrs[j].refcnt >= 1
    requires flat[v] == Ptr(base, j) && (e == 0 || IsValid(e))
    ensures State(flat[v := e], vmrs[j := Decref(vmrs[j])],
                  if vmrs[j].refcnt == 1 then FileDecref(held, vmrs[j].file) else held, base, k, extra)
  {
    CountedAfter(flat, vmrs, base, k, extra, v, e, j);
    HeldAfter(vmrs, held, j);
    EntriesAfter(flat, vmrs, vmrs[j := Decref(vmrs[j])], base, v, e);
  }

  /** An empty or valid entry is replaced by another such. */
  lemma Replaced(flat: seq<nat>, vmrs: seq<Vmr>, held: map<nat, nat>, base: nat, k: nat, extra: int, v: nat, e: nat)
    requires State(flat, vmrs, held, base, k, extra) && v < VPNS && (flat[v] == 0 || IsValid(flat[v])) && (e == 0 || IsValid(e))
    ensures State(flat[v := e], vmrs, held, base, k, extra)
  {
    var flat' := flat[v := e];
    forall i | 0 <= i < |vmrs|
      ensures RecordCounts(flat', vmrs, base, i, k, extra)
    {
      assert RecordCounts(flat, vmrs, base, i, k, extra);
      PtrFacts(base, i);
      CountStore(flat, VPNS, v, e, Ptr(base, i));
    }
    EntriesAfter(flat, vmrs, vmrs, base, v, e);
  }

  /** An empty entry in the range of record k comes to name it. */
  lemma Named(flat: seq<nat>, vmrs: seq<Vmr>, held: map<nat, nat>, base: nat, k: nat, extra: int, v: nat)
    requires State(flat, vmrs, held, base, k, extra) && v < VPNS && flat[v] == 0 && k < MAX_VMR
    requires vmrs[k].addr <= v * PGSIZE < vmrs[k].addr + vmrs[k].length
    ensures State(flat[v := Ptr(base, k)], vmrs, held, base, k, extra - 1)
  {
    var e := Ptr(base, k);
    var flat', left := flat[v := e], extra - 1;
    forall i | 0 <= i < |vmrs|
      ensures RecordCounts(flat', vmrs, base, i, k, left)
    {
      assert RecordCounts(flat, vmrs, base, i, k, extra);
      PtrFacts(base, i);
      CountStore(flat, VPNS, v, e, Ptr(base, i));
      if Ptr(base, i) == e {
        SamePtr(base, i, k);
      }
    }
    forall w | 0 <= w < VPNS
      ensures EntryOk(flat', vmrs, base, w)
    {
      assert EntryOk(flat, vmrs, base, w);
    }
  }

  /** A free record, which nothing names, is taken for n pages to come. */
  lemma Taken(flat: seq<nat>, vmrs: seq<Vmr>, held: map<nat, nat>, base: nat, k: nat, r: Vmr)
    requires State(flat, vmrs, held, base, k, 0) && k < MAX_VMR && vmrs[k].refcnt == 0 && r.refcnt > 0
    ensures State(flat, vmrs[k := r], FileIncref(held, r.file), base, k, r.refcnt)
  {
    assert RecordCounts(flat, vmrs, base, k, k, 0);
    var vmrs', held' := vmrs[k := r], FileIncref(held, r.file);
    forall i | 0 <= i < |vmrs|
      ensures RecordCounts(flat, vmrs', base, i, k, r.refcnt)
    {
      assert RecordCounts(flat, vmrs, base, i, k, 0);
    }
    forall w | 0 <= w < VPNS
      ensures EntryOk(flat, vmrs', base, w)
    {
      assert EntryOk(flat, vmrs, base, w);
      CountSome(flat, VPNS, w);
      if flat[w] != 0 && !IsValid(flat[w]) {
        var i :| 0 <= i < |vmrs| && flat[w] == Ptr(base, i) && vmrs[i].addr <= w * PGSIZE < vmrs[i].addr + vmrs[i].length;
        assert i != k;
        assert vmrs'[i] == vmrs[i];
      }
    }
    forall f | 1 <= f
      ensures Held(held', f) == Holders(vmrs', |vmrs'|, f)
    {
      HoldersUpdated(vmrs, |vmrs|, k, r, f);
      assert Held(held, f) == Holders(vmrs, |vmrs|, f);
    }
  }

  /** With nothing outstanding it does not matter which record is singled out. */
  lemma NothingExtra(flat: seq<nat>, vmrs: seq<Vmr>, held: map<nat, nat>, base: nat, k: nat, k': nat)
    requires State(flat, vmrs, held, base, k, 0)
    ensures State(flat, vmrs, held, base, k', 0)
  {
    forall i | 0 <= i < |vmrs|
      ensures RecordCounts(flat, vmrs, base, i, k', 0)
    {
      assert RecordCounts(flat, vmrs, base, i, k, 0);
    }
  }

  // ---------------------------------------------------------------- page table entries

  const READ: int := 1
  const WRITE: int := 2
  const EXEC: int := 4

  /** The three protection bits that count. */
  function Bits(prot: int): (p: nat)
    ensures p < 8
  {
    prot % 8
  }

  /** The type bits pte_create chooses for a user page. */
  function UserType(prot: nat): bv5
    requires prot < 8
  {
    if prot == 0 then 0x10 else if prot == READ then 0x08
    else if prot == WRITE || prot == READ + WRITE then 0x0A
    else if prot == EXEC || prot == READ + EXEC then 0x0C
    else 0x0E
  }

  /** pte_create with user set. */
  function PteCreate(ppn: nat, prot: int): nat {
    ppn * 0x400 + PTE_V + UserType(Bits(prot)) as int
  }

  lemma PteValid(ppn: nat, prot: int)
    ensures IsValid(PteCreate(ppn, prot)) && PteCreate(ppn, prot) != 0
  {
    var t := UserType(Bits(prot)) as int;
    assert t in {0x10, 0x08, 0x0A, 0x0C, 0x0E};
    DivUnique(PteCreate(ppn, prot), 2, ppn * 0x200 + t / 2, 1);
  }

  /** A user page leads to its frame and allows the user what the mapping asks; write and execute imply read. */
  lemma UserAccess(ppn: nat, prot: int)
    ensures
      var e, p := PteCreate(ppn, prot), prot % 8;
      && PtePpn(e) == ppn && !IsTable(e)
      && (UserReads(e) <==> p != 0) && (UserWrites(e) <==> p / 2 % 2 == 1) && (UserExecutes(e) <==> p / 4 == 1)
  {
    var t, e := UserType(Bits(prot)) as int, PteCreate(ppn, prot);
    assert Bits(prot) in {0, 1, 2, 3, 4, 5, 6, 7} && t in {0x10, 0x08, 0x0A, 0x0C, 0x0E};
    DivUnique(e, 0x400, ppn, 1 + t);
    DivUnique(e, 0x20, ppn * 0x20, 1 + t);
  }

  /** The five type bits of an entry. */
  function TypeOf(pte: nat): bv5 {
    (pte % 0x20 / 2 * 2) as bv5
  }

  /** `(*pte & perms) == perms` for perms = pte_create(0, prot, 1). */
  predicate Grants(pte: nat, prot: int) {
    IsValid(pte) && TypeOf(pte) & UserType(Bits(prot)) == UserType(Bits(prot))
  }

  lemma TypeOfCreated(ppn: nat, prot: int)
    ensures TypeOf(PteCreate(ppn, prot)) == UserType(Bits(prot))
  {
    var t := UserType(Bits(prot)) as int;
    assert t in {0x10, 0x08, 0x0A, 0x0C, 0x0E};
    DivUnique(PteCreate(ppn, prot), 0x20, ppn * 0x20, 1 + t);
  }

  /** An access is granted when the mapping allows it; write and execute imply read, and a page with no access grants only that. */
  lemma GrantsMeans(ppn: nat, have: int, want: int)
    ensures
      var h, w := Bits(have), Bits(want);
      Grants(PteCreate(ppn, have), want) <==>
        if w == 0 then h == 0
        else h != 0 && (w / 2 % 2 == 1 ==> h / 2 % 2 == 1) && (w / 4 == 1 ==> h / 4 == 1)
  {
    PteValid(ppn, have);
    TypeOfCreated(ppn, have);
    TypesCompare(Bits(have), Bits(want));
  }

  lemma TypesCompare(h: nat, w: nat)
    requires h < 8 && w < 8
    ensures UserType(h) & UserType(w) == UserType(w) <==>
              if w == 0 then h == 0
              else h != 0 && (w / 2 % 2 == 1 ==> h / 2 % 2 == 1) && (w / 4 == 1 ==> h / 4 == 1)
  {
    assert w in {0, 1, 2, 3, 4, 5, 6, 7} && h in {0, 1, 2, 3, 4, 5, 6, 7};
  }
}
