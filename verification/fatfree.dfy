/** f_getfree: the number of free clusters, cached or counted. */
module FatFree {
  import opened Basics
  import opened Words
  import opened Volume
  import opened FatTable
  import opened FatChain

  /** Zero entries among the first k, the two reserved ones included. */
  function CountZero(fat: seq<nat>, k: nat): (n: nat)
    requires k <= |fat|
    ensures n <= k
  {
    if k == 0 then 0 else CountZero(fat, k - 1) + Bit(fat[k - 1] == 0)
  }

  /** Counting every entry overcounts by the reserved entries that are zero. */
  lemma {:induction false} ZeroOrFree(fat: seq<nat>, k: nat)
    requires 2 <= k <= |fat|
    ensures CountZero(fat, k) == CountFree(fat, k) + Bit(fat[0] == 0) + Bit(fat[1] == 0)
  {
    if k > 2 {
      ZeroOrFree(fat, k - 1);
    } else {
      assert CountZero(fat, 2) == CountZero(fat, 1) + Bit(fat[1] == 0);
      assert CountZero(fat, 1) == CountZero(fat, 0) + Bit(fat[0] == 0);
    }
  }

  /** None of the first k entries has the reserved value. */
  ghost predicate NoneReserved(fat: seq<nat>, k: nat) {
    forall c :: 2 <= c < k && c < |fat| ==> fat[c] != 1
  }

  /** Entry k has it, and none before. */
  ghost predicate FirstReserved(fat: seq<nat>, k: nat) {
    k < |fat| && fat[k] == 1 && NoneReserved(fat, k)
  }

  /** The FAT12 scan, entry by entry. */
  method ScanByEntry(fs: Fatfs) returns (res: FResult, nfree: nat, ghost k: nat)
    requires fs.Valid()
    modifies fs`disk, fs`winsect, fs`win, fs`wflag, fs`faults
    ensures fs.Valid() && fs.Logical() == old(fs.Logical()) && res in {Ok, DiskErr, IntErr}
    ensures 2 <= k <= fs.geo.nFatent && nfree == CountFree(Fat(fs.geo, fs.Logical()), k) && (res == Ok ==> k == fs.geo.nFatent)
    ensures NoneReserved(Fat(fs.geo, fs.Logical()), k) && (res == IntErr ==> FirstReserved(Fat(fs.geo, fs.Logical()), k))
    ensures old(fs.Healthy()) ==> fs.Healthy() && res != DiskErr
    ensures old(fs.Healthy()) && old(fs.CopiesAgree()) ==> fs.CopiesAgree()
  {
    hide Fat, Image, Overlay, Fatfs.CopiesAgree, Fatfs.Healthy;
    res, nfree := Ok, 0;
    var clst := 2;
    while clst < fs.geo.nFatent
      invariant 2 <= clst <= fs.geo.nFatent && res == Ok
      invariant fs.Valid() && fs.Logical() == old(fs.Logical())
      invariant nfree == CountFree(Fat(fs.geo, fs.Logical()), clst) && NoneReserved(Fat(fs.geo, fs.Logical()), clst)
      invariant old(fs.Healthy()) ==> fs.Healthy()
      invariant old(fs.Healthy()) && old(fs.CopiesAgree()) ==> fs.CopiesAgree()
    {
      var stat := GetFat(fs, clst);
      if stat == NOSECT {
        res := DiskErr;
        break;
      }
      if stat == 1 {
        res := IntErr;
        break;
      }
      if stat == 0 {
        nfree := nfree + 1;
      }
      clst := clst + 1;
    }
    k := clst;
  }

  /** Bytes of an aligned entry. */
  function Step(t: FatType): nat {
    if t == Fat16 then 2 else 4
  }

  /** The value of the aligned entry at offset p of the window, LD_WORD or the low 28 bits of LD_DWORD. */
  function Loaded(t: FatType, win: Sector, p: nat): int
    requires t != Fat12 && p + Step(t) <= SS
  {
    if t == Fat16 then Word(win[p], win[p + 1])
    else Dword(win[p], win[p + 1], win[p + 2], win[p + 3]) % 0x1000_0000
  }

  lemma LoadedEntry(fs: Fatfs, e: nat)
    requires fs.Valid() && fs.geo.fsType != Fat12 && e < fs.geo.nFatent
    requires fs.winsect == fs.geo.fatbase + e * Step(fs.geo.fsType) / SS
    ensures
      var p := e * Step(fs.geo.fsType) % SS;
      p + Step(fs.geo.fsType) <= SS && Loaded(fs.geo.fsType, fs.win, p) == Fat(fs.geo, fs.Logical())[e]
  {
    hide Fat, Image, Overlay, Entry, Word, Dword, MultipleOf;
    var t, n := fs.geo.fsType, Step(fs.geo.fsType);
    var k := e * n;
    FatAt(fs.geo, fs.Logical(), e);
    var img := Image(fs.geo, fs.Logical());
    IsMultiple(k, n, e);
    AlignedRoom(k, n);
    SameWindow(fs, k, n, 0);
    SameWindow(fs, k, n, 1);
    var p := k % SS;
    if t == Fat16 {
      EntryWord(t, img, e, fs.win[p], fs.win[p + 1]);
    } else {
      SameWindow(fs, k, n, 2);
      SameWindow(fs, k, n, 3);
      EntryDword(img, e, fs.win[p], fs.win[p + 1], fs.win[p + 2], fs.win[p + 3]);
    }
  }

  /** The next entry is in the same sector, or at the start of the next one. */
  lemma NextEntry(e: nat, n: nat)
    requires n in {2, 4}
    ensures var p, q := e * n % SS, (e + 1) * n;
            if p + n < SS then q / SS == e * n / SS && q % SS == p + n
            else p + n == SS && q / SS == e * n / SS + 1 && q % SS == 0
  {
    hide MultipleOf;
    var k := e * n;
    IsMultiple(k, n, e);
    AlignedRoom(k, n);
    if k % SS + n < SS {
      DivUnique(k + n, SS, k / SS, k % SS + n);
    } else {
      DivUnique(k + n, SS, k / SS + 1, 0);
    }
  }

  /** The FAT16 and FAT32 scan, window by window. */
  method ScanBySector(fs: Fatfs) returns (res: FResult, nfree: nat, ghost k: nat)
    requires fs.Valid() && fs.geo.fsType != Fat12
    modifies fs`disk, fs`winsect, fs`win, fs`wflag, fs`faults
    ensures fs.Valid() && fs.Logical() == old(fs.Logical()) && res in {Ok, DiskErr}
    ensures k <= fs.geo.nFatent && nfree == CountZero(Fat(fs.geo, fs.Logical()), k) && (res == Ok ==> k == fs.geo.nFatent)
    ensures old(fs.Healthy()) ==> fs.Healthy() && res == Ok
    ensures old(fs.Healthy()) && old(fs.CopiesAgree()) ==> fs.CopiesAgree()
  {
    hide Fat, Image, Overlay, Fatfs.CopiesAgree, Fatfs.Healthy, Loaded;
    res, nfree, k := Ok, 0, 0;
    var n := Step(fs.geo.fsType);
    var clst, sect, i, p := fs.geo.nFatent, fs.geo.fatbase, 0, 0;
    while clst != 0
      invariant k + clst == fs.geo.nFatent && res == Ok
      invariant fs.Valid() && fs.Logical() == old(fs.Logical())
      invariant nfree == CountZero(Fat(fs.geo, fs.Logical()), k)
      invariant if i == 0 then k * n % SS == 0 && sect == fs.geo.fatbase + k * n / SS
                else p == k * n % SS && i == SS - p && fs.winsect == fs.geo.fatbase + k * n / SS && sect == fs.winsect + 1
      invariant old(fs.Healthy()) ==> fs.Healthy()
      invariant old(fs.Healthy()) && old(fs.CopiesAgree()) ==> fs.CopiesAgree()
      decreases clst
    {
      if i == 0 {
        EntryInTable(fs.geo, k);
        res := fs.MoveWindow(sect);
        sect := sect + 1;
        if res != Ok { return; }
        p := 0;
        i := SS;
      }
      LoadedEntry(fs, k);
      NextEntry(k, n);
      if Loaded(fs.geo.fsType, fs.win, p) == 0 {
        nfree := nfree + 1;
      }
      p := p + n;
      i := i - n;
      k := k + 1;
      clst := clst - 1;
    }
  }

  lemma EntryInTable(g: Geometry, e: nat)
    requires g.Valid() && g.fsType != Fat12 && e < g.nFatent
    ensures var s := g.fatbase + e * Step(g.fsType) / SS; s < g.total && g.InFat(s) && !g.InMirror(s)
  {
    FatSector(g, e * Step(g.fsType));
  }

  /**
   The cached count if it can be one, else a count over the table.  The cache is set even when the
   scan fails, to what was counted up to there.
   */
  method GetFree(fs: Fatfs) returns (res: FResult, nclst: u32)
    requires fs.Valid()
    modifies fs`disk, fs`winsect, fs`win, fs`wflag, fs`faults, fs`freeClust, fs`fsiFlag
    ensures fs.Valid() && fs.Logical() == old(fs.Logical()) && res in {Ok, DiskErr, IntErr} && fs.freeClust == nclst
    ensures fs.fsiFlag == if old(fs.freeClust) <= fs.geo.nFatent - 2 then old(fs.fsiFlag) else Raised(old(fs.fsiFlag))
    ensures
      var fat := Fat(fs.geo, fs.Logical());
      if old(fs.freeClust) <= fs.geo.nFatent - 2 then res == Ok && nclst == old(fs.freeClust)
      else if fs.geo.fsType == Fat12 then
        if res == Ok then nclst == CountFree(fat, |fat|) && !Damaged(fat)
        else exists k :: 2 <= k <= |fat| && nclst == CountFree(fat, k) && (res == IntErr ==> FirstReserved(fat, k))
      else
        if res == Ok then nclst == CountFree(fat, |fat|) + Bit(fat[0] == 0) + Bit(fat[1] == 0)
        else res == DiskErr && exists k :: 0 <= k <= |fat| && nclst == CountZero(fat, k)
    ensures old(fs.Healthy()) ==> fs.Healthy() && res != DiskErr
    ensures old(fs.Healthy()) && old(fs.CopiesAgree()) ==> fs.CopiesAgree()
  {
    hide Fat, Image, Overlay, Fatfs.CopiesAgree, Fatfs.Healthy, CountFree, CountZero;
    if fs.freeClust <= fs.geo.nFatent - 2 {
      return Ok, fs.freeClust;
    }
    ghost var fat := Fat(fs.geo, fs.Logical());
    var nfree: nat;
    ghost var k;
    if fs.geo.fsType == Fat12 {
      res, nfree, k := ScanByEntry(fs);
    } else {
      res, nfree, k := ScanBySector(fs);
      ZeroOrFree(fat, |fat|);
    }
    nclst := nfree;
    fs.freeClust := nfree;
    fs.fsiFlag := Raised(fs.fsiFlag);
  }

  /** A completed scan leaves a right count exactly when it did not count a reserved entry. */
  lemma ScanIsRight(fat: seq<nat>, t: FatType, n: nat)
    requires 2 <= |fat|
    requires n == if t == Fat12 then CountFree(fat, |fat|) else CountZero(fat, |fat|)
    ensures n == CountFree(fat, |fat|) <==> t == Fat12 || (fat[0] != 0 && fat[1] != 0)
  {
    ZeroOrFree(fat, |fat|);
  }
}
