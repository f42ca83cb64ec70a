/** dir_sdi and dir_next: seeking in a directory table and stepping through it. */
module FatDir {
  import opened Basics
  import opened Words
  import opened Volume
  import opened FatTable
  import opened FatChain
  import opened FileLayout
  import opened FileView

  const SZ_DIRE: int := 32
  const PER_SECTOR: int := 16    // entries in a sector

  // ---------------------------------------------------------------- where an entry is

  /** The cluster n links after c, if every cluster up to it is valid. */
  function Nth(fat: seq<nat>, c: nat, n: nat): (r: Option<nat>)
    ensures r.Some? ==> 2 <= r.value < |fat|
  {
    if n == 0 then (if 2 <= c < |fat| then Some(c) else None)
    else
      match Nth(fat, c, n - 1)
      case None => None
      case Some(d) => if 2 <= fat[d] < |fat| then Some(fat[d]) else None
  }

  /** First cluster of the table that starts at sclust; 0 stands for the static root table. */
  function Root(g: Geometry, sclust: nat): nat {
    if sclust == 0 && g.fsType == Fat32 then g.dirbase else sclust
  }

  datatype Place = Place(clust: nat, sect: nat, offset: nat)

  /** Cluster, sector and byte offset of entry idx, if the table has it. */
  function Locate(g: Geometry, fat: seq<nat>, sclust: nat, idx: nat): Option<Place>
    requires g.Valid()
  {
    var first, q := Root(g, sclust), idx / PER_SECTOR;
    if sclust == 1 || sclust >= g.nFatent then None
    else if first == 0 then
      if idx < g.nRootdir then Some(Place(0, g.dirbase + q, idx % PER_SECTOR * SZ_DIRE)) else None
    else
      match Nth(fat, first, q / g.csize)
      case None => None
      case Some(c) =>
        if c < TWO32 then Some(Place(c, Clust2Sect(g, c) + q % g.csize, idx % PER_SECTOR * SZ_DIRE)) else None
  }

  /** Where a table begins: the root directory of FAT12 and FAT16 at a fixed sector, every other table in its first cluster. */
  lemma FirstEntry(g: Geometry, fat: seq<nat>, sclust: nat)
    requires g.Valid() && g.RootValid() && |fat| == g.nFatent && (g.fsType != Fat32 ==> 0 < g.nRootdir)
    ensures
      var place := Locate(g, fat, sclust, 0);
      if sclust == 0 && g.fsType != Fat32 then place == Some(Place(0, g.fatbase + g.nFats * g.fsize, 0))
      else
        var c := if sclust == 0 then g.dirbase else sclust;
        if 2 <= c < g.nFatent then place == Some(Place(c, g.database + (c - 2) * g.csize, 0)) else place == None
  {
    var c := Root(g, sclust);
    assert c < TWO32 || c >= g.nFatent;
    if 2 <= c < g.nFatent {
      ClusterPlace(g, c);
    }
    assert 0 / g.csize == 0 && 0 % g.csize == 0;
  }

  lemma {:induction false} NthOfChain(fat: seq<nat>, s: seq<nat>, n: nat)
    requires IsChain(fat, s)
    ensures Nth(fat, s[0], n) == if n < |s| then Some(s[n]) else None
  {
    if n == 0 {
      ChainMember(fat, s, 0);
    } else {
      NthOfChain(fat, s, n - 1);
      if n <= |s| {
        ChainMember(fat, s, n - 1);
        if n < |s| {
          ChainMember(fat, s, n);
        }
      }
    }
    hide IsChain;
  }

  /** A table in a chain has 16 entries for each sector of each cluster, in the order of the chain, and no others. */
  lemma TableOfChain(g: Geometry, fat: seq<nat>, sclust: nat, s: seq<nat>, idx: nat)
    requires g.Valid() && |fat| == g.nFatent && IsChain(fat, s) && s[0] == Root(g, sclust) && sclust < g.nFatent && sclust != 1
    ensures
      var q := idx / 16;
      match Locate(g, fat, sclust, idx)
      case None => q >= |s| * g.csize
      case Some(p) =>
        && q < |s| * g.csize && p.clust == ClusterAt(s, q / g.csize) && p.sect == ChainSector(g, s, q) && p.offset == 32 * (idx % 16)
  {
    hide Nth, Clust2Sect, ClusterSector, IsChain, Root;
    var q := idx / 16;
    var n := q / g.csize;
    DivShrinks(q, g.csize);
    QuotientBelow(q, g.csize, |s|);
    NthOfChain(fat, s, n);
    ChainMember(fat, s, 0);
    if n < |s| {
      ChainMember(fat, s, n);
      ClusterSectorIs(g, s[n], q % g.csize);
    }
  }

  function ClusterAt(s: seq<nat>, i: int): nat {
    if 0 <= i < |s| then s[i] else 0
  }

  lemma QuotientBelow(q: nat, d: nat, n: nat)
    requires 0 < d
    ensures q / d < n <==> q < n * d
  {
    if q / d < n {
      MulMono(q / d + 1, n, d);
    } else {
      MulMono(n, q / d, d);
    }
  }

  lemma ChainMember(fat: seq<nat>, s: seq<nat>, i: nat)
    requires IsChain(fat, s) && (i == 0 || i < |s|)
    ensures i < |s| && 2 <= s[i] < |fat| && if i + 1 < |s| then fat[s[i]] == s[i + 1] else fat[s[i]] >= |fat|
  {
    assert LinkAt(fat, s, i);
  }

  /** The static root directory has as many entries as the boot sector says, from its first sector on. */
  lemma StaticTable(g: Geometry, fat: seq<nat>, idx: nat)
    requires g.Valid() && g.RootValid() && |fat| == g.nFatent && g.fsType != Fat32 && g.dirbase != 0
    ensures Locate(g, fat, 0, idx) ==
            if idx < g.nRootdir then Some(Place(0, g.fatbase + g.nFats * g.fsize + idx / 16, 32 * (idx % 16))) else None
  {
  }

  class Dir {
    const fs: Fatfs
    const sclust: u32      // table start cluster, 0 for the root
    var index: nat         // 16 bits
    var clust: u32
    var sect: u32
    var offset: nat        // of the entry in the window

    constructor (fs: Fatfs, sclust: u32)
      ensures this.fs == fs && this.sclust == sclust
    {
      this.fs, this.sclust := fs, sclust;
      index, clust, sect, offset := 0, 0, 0, 0;
    }

    /** The object points at entry idx. */
    ghost predicate At(idx: nat)
      reads this, fs
    {
      && fs.Valid() && index == idx % 0x1_0000
      && Locate(fs.geo, Fat(fs.geo, fs.Logical()), sclust, idx) == Some(Place(clust, sect, offset))
    }

    /** dir_sdi: succeeds exactly when the table has the entry, and points at it. */
    method Sdi(idx: nat) returns (res: FResult)
      requires fs.Valid() && fs.geo.RootValid()
      modifies this, fs`disk, fs`winsect, fs`win, fs`wflag, fs`faults
      ensures fs.Valid() && fs.Logical() == old(fs.Logical()) && res in {Ok, DiskErr, IntErr}
      ensures res == Ok ==> At(idx)
      ensures res == IntErr ==> Locate(fs.geo, Fat(fs.geo, fs.Logical()), sclust, idx) == None
      ensures old(fs.Healthy()) ==> fs.Healthy() && res != DiskErr
      ensures old(fs.Healthy()) && old(fs.CopiesAgree()) ==> fs.CopiesAgree()
    {
      hide Fat, Image, Overlay, Fatfs.CopiesAgree, Fatfs.Healthy, Fatfs.Logical, Nth;
      index := idx % 0x1_0000;
      var clst := sclust;
      if clst == 1 || clst >= fs.geo.nFatent {
        return IntErr;
      }
      if clst == 0 && fs.geo.fsType == Fat32 {
        clst := fs.geo.dirbase;
      }
      var rest := idx;
      var start: u32;
      if clst == 0 {
        if idx >= fs.geo.nRootdir {
          return IntErr;
        }
        start := fs.geo.dirbase;
      } else {
        res, clst, rest := Follow(clst, idx);
        if res != Ok { return; }
        FirstSector(fs.geo, clst);
        start := Clust2Sect(fs.geo, clst);
      }
      clust := clst;
      if start == 0 {
        return IntErr;
      }
      sect := start + rest / PER_SECTOR;
      offset := rest % PER_SECTOR * SZ_DIRE;
      res := Ok;
    }

    /** dir_sdi's loop: the cluster that holds entry idx, and the entry's number in it. */
    method Follow(first: u32, idx: nat) returns (res: FResult, clst: u32, rest: nat)
      requires fs.Valid() && first != 0
      modifies fs`disk, fs`winsect, fs`win, fs`wflag, fs`faults
      ensures fs.Valid() && fs.Logical() == old(fs.Logical()) && res in {Ok, DiskErr, IntErr}
      ensures
        var place := Nth(Fat(fs.geo, fs.Logical()), first, idx / PER_SECTOR / fs.geo.csize);
        && (res == IntErr ==> place == None)
        && (res == Ok ==> (place == if 2 <= clst < fs.geo.nFatent then Some(clst) else None))
      ensures res == Ok ==> rest / PER_SECTOR == idx / PER_SECTOR % fs.geo.csize && rest % PER_SECTOR == idx % PER_SECTOR
      ensures old(fs.Healthy()) ==> fs.Healthy() && res != DiskErr
      ensures old(fs.Healthy()) && old(fs.CopiesAgree()) ==> fs.CopiesAgree()
    {
      hide Fat, Image, Overlay, Fatfs.CopiesAgree, Fatfs.Healthy, Fatfs.Logical, Nth;
      res, clst, rest := Ok, first, idx;
      ghost var fat, n := Fat(fs.geo, fs.Logical()), 0;
      var ic := SS / SZ_DIRE * fs.geo.csize;
      NthStart(fat, first);
      SameEntry(idx, fs.geo.csize, ic);
      while rest >= ic
        invariant fs.Valid() && fs.Logical() == old(fs.Logical()) && res == Ok
        invariant n <= idx / ic && rest / ic == idx / ic - n && rest % ic == idx % ic
        invariant Nth(fat, first, n) == if 2 <= clst < fs.geo.nFatent then Some(clst) else None
        invariant old(fs.Healthy()) ==> fs.Healthy()
        invariant old(fs.Healthy()) && old(fs.CopiesAgree()) ==> fs.CopiesAgree()
        decreases rest
      {
        ghost var from := clst;
        clst := GetFat(fs, clst);
        if clst == NOSECT {
          res := DiskErr;
          return;
        }
        OneLess(rest, ic);
        NthStep(fat, first, n, from);
        if clst < 2 || clst >= fs.geo.nFatent {
          res := IntErr;
          NthNone(fat, first, n + 1, idx / ic);
          return;
        }
        rest := rest - ic;
        n := n + 1;
      }
      WithinOne(rest, ic);
      SameEntry(idx, fs.geo.csize, ic);
      SmallEntry(rest, fs.geo.csize, ic);
    }

    /** The cluster after the current one, added and cleared if the table ends there and may be stretched. */
    method NextCluster(stretch: bool) returns (res: FResult, clst: u32)
      requires fs.Valid() && 2 <= clust < fs.geo.nFatent
      modifies fs`disk, fs`winsect, fs`win, fs`wflag, fs`faults, fs`freeClust, fs`lastClust, fs`fsiFlag
      ensures fs.Valid() && res in {Ok, DiskErr, IntErr, NoFile, Denied}
      ensures
        var fat := Fat(fs.geo, old(fs.Logical()));
        if 2 <= fat[clust] < |fat| then
          res in {Ok, DiskErr} && fs.Logical() == old(fs.Logical()) && (res == Ok ==> clst == fat[clust])
        else AtChainEnd(fs.geo, old(fs.Logical()), fs.Logical(), clust, stretch, res, clst)
      ensures old(fs.Healthy()) ==> fs.Healthy() && res != DiskErr
      ensures old(fs.Healthy()) && old(fs.CopiesAgree()) ==> fs.CopiesAgree()
    {
      hide Fat, Image, Overlay, Fatfs.CopiesAgree, Fatfs.Healthy, Fatfs.Logical, Full, NoneFree, Linked, SameData, ClearedTo;
      res := Ok;
      clst := GetFat(fs, clust);
      if clst <= 1 {
        return IntErr, clst;
      }
      if clst == NOSECT {
        return DiskErr, clst;
      }
      if clst >= fs.geo.nFatent {
        if !stretch {
          return NoFile, clst;
        }
        clst := CreateChain(fs, clust);
        if clst == 0 {
          return Denied, clst;
        }
        if clst == 1 {
          return IntErr, clst;
        }
        if clst == NOSECT {
          return DiskErr, clst;
        }
        RangeOfLinked(fs.geo, Fat(fs.geo, old(fs.Logical())), Fat(fs.geo, fs.Logical()), clust, clst);
        ghost var m := fs.Logical();
        res := ClearCluster(fs, clst);
        if res == Ok {
          StretchedBy(fs.geo, old(fs.Logical()), m, fs.Logical(), clust, clst);
        }
      }
    }

    /**
     dir_next: from entry index to the next one, wherever dir_sdi would find it; a chain that ends there
     may be stretched by a cleared cluster.
     */
    method Next(stretch: bool) returns (res: FResult)
      requires index < 0x1_0000 && At(index) && fs.geo.RootValid()
      modifies this, fs`disk, fs`winsect, fs`win, fs`wflag, fs`faults, fs`freeClust, fs`lastClust, fs`fsiFlag
      ensures fs.Valid() && res in {Ok, DiskErr, IntErr, NoFile, Denied}
      ensures res == Ok ==> index == old(index) + 1 && At(index)
      ensures
        var fat := Fat(fs.geo, old(fs.Logical()));
        if old(index) == 0xFFFF then res == NoFile
        else if Locate(fs.geo, fat, sclust, old(index) + 1).Some? then
          res in {Ok, DiskErr} && fs.Logical() == old(fs.Logical())
        else if old(clust) == 0 then res == NoFile && fs.Logical() == old(fs.Logical())
        else AtChainEnd(fs.geo, old(fs.Logical()), fs.Logical(), old(clust), stretch, res, clust)
      ensures old(fs.Healthy()) ==> fs.Healthy() && res != DiskErr
      ensures old(fs.Healthy()) && old(fs.CopiesAgree()) ==> fs.CopiesAgree()
    {
      hide Fat, Image, Overlay, Fatfs.CopiesAgree, Fatfs.Healthy, Fatfs.Logical, Full, Linked, SameData, Stretched, Locate;
      ghost var fat, p := Fat(fs.geo, fs.Logical()), Place(clust, sect, offset);
      SectorNonzero(fs.geo, fat, sclust, index, p);
      var i := index + 1;
      if i % 0x1_0000 == 0 || sect == 0 {
        return NoFile;
      }
      if i % PER_SECTOR == 0 {
        if clust == 0 {
          NextStatic(fs.geo, fat, sclust, index, p);
        } else {
          NextDynamic(fs.geo, fat, sclust, index, p);
        }
        sect := sect + 1;
        if clust == 0 {
          if i >= fs.geo.nRootdir {
            return NoFile;
          }
        } else if i / PER_SECTOR % fs.geo.csize == 0 {
          var clst;
          res, clst := NextCluster(stretch);
          if res != Ok { return; }
          if fat[clust] >= |fat| {
            StretchedPlace(fs.geo, old(fs.Logical()), fs.Logical(), sclust, index, p, clst);
          }
          FirstSector(fs.geo, clst);
          clust := clst;
          sect := Clust2Sect(fs.geo, clst);
        }
      } else {
        NextInSector(fs.geo, fat, sclust, index, p);
      }
      index := i;
      offset := i % PER_SECTOR * SZ_DIRE;
      res := Ok;
    }
  }

  /** The free cluster r is linked after prev and cleared; nothing else in the data area changes. */
  ghost predicate Stretched(g: Geometry, l: seq<Sector>, l': seq<Sector>, prev: nat, r: nat)
    requires g.Valid() && |l| == |l'| == g.total
  {
    && r < TWO32 && Linked(g, Fat(g, l), Fat(g, l'), prev, r)
    && var start := Clust2Sect(g, r);
       forall s :: 0 <= s < g.total && !g.InFat(s) && !g.InMirror(s) ==>
         l'[s] == if start <= s < start + g.csize then Zeros() else l[s]
  }

  /**
   What comes of a chain that ends at cluster c: a bad link is an internal error, an end mark is the end of the
   table unless it may be stretched, and then it is stretched by r, or there is no cluster to take.
   */
  ghost predicate AtChainEnd(g: Geometry, l: seq<Sector>, l': seq<Sector>, c: nat, stretch: bool, res: FResult, r: nat)
    requires g.Valid() && |l| == |l'| == g.total && c < g.nFatent
  {
    var fat := Fat(g, l);
    if fat[c] < 2 then res in {IntErr, DiskErr} && l' == l
    else if !stretch then res in {NoFile, DiskErr} && l' == l
    else
      && res in {Ok, Denied, IntErr, DiskErr} && (res in {Denied, IntErr} ==> l' == l)
      && (res == Ok ==> Stretched(g, l, l', c, r))
      && (res == Denied ==> Full(fat))
      && (res == IntErr ==> exists e :: 2 <= e < |fat| && fat[e] == 1)
  }

  lemma StretchedBy(g: Geometry, l: seq<Sector>, m: seq<Sector>, l': seq<Sector>, prev: nat, r: nat)
    requires g.Valid() && |l| == |m| == |l'| == g.total && SameData(g, l, m) && r < TWO32
    requires Linked(g, Fat(g, l), Fat(g, m), prev, r) && ClearedTo(g, m, l', Clust2Sect(g, r), g.csize)
    ensures Stretched(g, l, l', prev, r)
  {
    hide Fat;
    RangeOfLinked(g, Fat(g, l), Fat(g, m), prev, r);
    ClusterPlace(g, r);
    FatUntouched(g, m, l');
  }

  lemma RangeOfLinked(g: Geometry, fat: seq<nat>, fat': seq<nat>, prev: nat, r: nat)
    requires g.Valid() && Linked(g, fat, fat', prev, r)
    ensures 2 <= r < |fat|
  {
  }

  // ---------------------------------------------------------------- clearing a new cluster

  function Zeros(): (z: Sector)
    ensures forall i :: 0 <= i < 512 ==> z[i] == 0
  {
    seq(SS, _ => 0)
  }

  /** l with the sectors of cluster c from its first to the n-th cleared. */
  ghost predicate ClearedTo(g: Geometry, l: seq<Sector>, l': seq<Sector>, start: nat, n: nat) {
    |l'| == |l| && forall s :: 0 <= s < |l| ==> l'[s] == if start <= s < start + n then Zeros() else l[s]
  }

  /** A clean window shows what is on the disk. */
  lemma CleanOverlay(g: Geometry, disk: seq<Sector>, w: u32, win: Sector)
    requires g.Valid() && |disk| == g.total && (w == NOSECT || (w < g.total && !g.InMirror(w) && win == disk[w]))
    ensures Overlay(g, disk, w, win) == Overlay(g, disk, NOSECT, win)
  {
  }

  /** A window over a data sector shows itself there. */
  lemma DataOverlay(g: Geometry, disk: seq<Sector>, w: u32, win: Sector)
    requires g.Valid() && |disk| == g.total && g.database <= w < g.total
    ensures Overlay(g, disk, w, win) == Overlay(g, disk, NOSECT, win)[w := win]
  {
  }

  lemma ClearedMore(g: Geometry, l: seq<Sector>, l': seq<Sector>, start: nat, n: nat)
    requires ClearedTo(g, l, l', start, n) && start + n < |l|
    ensures ClearedTo(g, l, l'[start + n := Zeros()], start, n + 1)
  {
  }

  /** The window, cleared, is written over every sector of the cluster, and then stands at its first one. */
  method ClearCluster(fs: Fatfs, clst: nat) returns (res: FResult)
    requires fs.Valid() && 2 <= clst < fs.geo.nFatent
    modifies fs`disk, fs`winsect, fs`win, fs`wflag, fs`faults
    ensures fs.Valid() && res in {Ok, DiskErr}
    ensures exists n: nat :: n <= fs.geo.csize && ClearedTo(fs.geo, old(fs.Logical()), fs.Logical(), Clust2Sect(fs.geo, clst), n)
    ensures res == Ok ==> ClearedTo(fs.geo, old(fs.Logical()), fs.Logical(), Clust2Sect(fs.geo, clst), fs.geo.csize)
    ensures old(fs.Healthy()) ==> fs.Healthy() && res == Ok
    ensures old(fs.Healthy()) && old(fs.CopiesAgree()) ==> fs.CopiesAgree()
  {
    hide Fatfs.Healthy, Overlay, AgreeExcept, ClearedTo, Zeros;
    ghost var l := fs.Logical();
    ClusterPlace(fs.geo, clst);
    var start := Clust2Sect(fs.geo, clst);
    assert ClearedTo(fs.geo, l, l, start, 0) by { ClearedNone(fs.geo, l, start); }
    res := fs.SyncWindow();
    if res != Ok { return; }
    CleanOverlay(fs.geo, fs.disk, fs.winsect, fs.win);
    NoWindow(fs.geo, fs.disk, fs.win, Zeros());
    fs.win := Zeros();
    fs.winsect := start;
    var c := 0;
    ghost var base := l;
    while c < fs.geo.csize
      invariant 0 <= c <= fs.geo.csize && !fs.wflag && fs.win == Zeros() && fs.winsect == start + c && |fs.disk| == fs.geo.total
      invariant base == Overlay(fs.geo, fs.disk, NOSECT, Zeros()) && ClearedTo(fs.geo, l, base, start, c) && res == Ok
      invariant old(fs.Healthy()) ==> fs.Healthy()
      invariant old(fs.Healthy()) && old(fs.CopiesAgree()) ==> AgreeExcept(fs.geo, fs.disk, NOSECT)
    {
      DataOverlay(fs.geo, fs.disk, fs.winsect, fs.win);
      ClearedMore(fs.geo, l, base, start, c);
      fs.wflag := true;
      base := base[start + c := Zeros()];
      DataCopies(fs.geo, fs.disk, fs.winsect);
      res := fs.SyncWindow();
      if res != Ok { return; }
      CleanOverlay(fs.geo, fs.disk, fs.winsect, fs.win);
      fs.winsect := fs.winsect + 1;
      c := c + 1;
    }
    ClearedFirst(fs.geo, l, base, fs.disk, start, c);
    fs.winsect := fs.winsect - c;
    CleanOverlay(fs.geo, fs.disk, fs.winsect, fs.win);
    assert ClearedTo(fs.geo, l, fs.Logical(), start, c);
  }

  lemma ClearedNone(g: Geometry, l: seq<Sector>, start: nat)
    ensures ClearedTo(g, l, l, start, 0)
  {
  }

  lemma NoWindow(g: Geometry, disk: seq<Sector>, win: Sector, win': Sector)
    requires g.Valid() && |disk| == g.total
    ensures Overlay(g, disk, NOSECT, win) == Overlay(g, disk, NOSECT, win')
  {
  }

  lemma DataCopies(g: Geometry, disk: seq<Sector>, w: u32)
    requires g.Valid() && |disk| == g.total && g.database <= w
    ensures AgreeExcept(g, disk, NOSECT) ==> AgreeExcept(g, disk, w)
  {
  }

  lemma ClearedFirst(g: Geometry, l: seq<Sector>, base: seq<Sector>, disk: seq<Sector>, start: nat, n: nat)
    requires g.Valid() && |disk| == |l| == g.total && g.database <= start < g.total && 0 < n
    requires base == Overlay(g, disk, NOSECT, Zeros()) && ClearedTo(g, l, base, start, n)
    ensures disk[start] == Zeros()
  {
    assert g.Home(start) == start && base[start] == disk[start];
  }

  // ---------------------------------------------------------------- chains of clusters

  lemma NthStart(fat: seq<nat>, c: nat)
    ensures Nth(fat, c, 0) == if 2 <= c < |fat| then Some(c) else None
  {
  }

  lemma NthStep(fat: seq<nat>, c: nat, n: nat, d: nat)
    requires Nth(fat, c, n) == if 2 <= d < |fat| then Some(d) else None
    ensures Nth(fat, c, n + 1) == if 2 <= d < |fat| && 2 <= fat[d] < |fat| then Some(fat[d]) else None
  {
  }

  lemma {:induction false} NthNone(fat: seq<nat>, c: nat, n: nat, m: nat)
    requires n <= m && Nth(fat, c, n) == None
    ensures Nth(fat, c, m) == None
    decreases m
  {
    if n < m {
      NthNone(fat, c, n, m - 1);
    }
  }

  /** Linking the free cluster r after d, the last of the first n, leaves those as they are. */
  lemma {:induction false} NthKept(g: Geometry, fat: seq<nat>, fat': seq<nat>, c: nat, n: nat, m: nat, d: nat, r: nat)
    requires g.Valid() && |fat| == g.nFatent && Linked(g, fat, fat', d, r)
    requires n <= m && Nth(fat, c, m) == Some(d) && fat[d] >= |fat|
    ensures Nth(fat', c, n) == Nth(fat, c, n)
    decreases n
  {
    LinkedLength(g, fat, fat', d, r);
    if n > 0 {
      NthKept(g, fat, fat', c, n - 1, m, d, r);
      if Nth(fat, c, n - 1).None? {
        NthNone(fat, c, n - 1, m);
      } else {
        var x := Nth(fat, c, n - 1).value;
        NthStep(fat, c, n - 1, x);
        if x == d || x == r {
          NthNone(fat, c, n, m);
        }
      }
    }
  }

  lemma LinkedLength(g: Geometry, fat: seq<nat>, fat': seq<nat>, d: nat, r: nat)
    requires g.Valid() && Linked(g, fat, fat', d, r)
    ensures |fat'| == |fat| && forall x :: 0 <= x < |fat| && x != d && x != r ==> fat'[x] == fat[x]
    ensures d != 0 ==> fat'[d] == r
  {
  }

  // ---------------------------------------------------------------- positions

  /** Dividing by the entries of a cluster is dividing by those of a sector and then by the sectors. */
  lemma SameEntry(idx: nat, d: nat, ic: nat)
    requires 0 < d && ic == PER_SECTOR * d
    ensures idx / ic == idx / PER_SECTOR / d
    ensures idx % ic == idx / PER_SECTOR % d * PER_SECTOR + idx % PER_SECTOR
  {
    var q, j := idx / PER_SECTOR, idx % PER_SECTOR;
    var i, s := q / d, q % d;
    assert idx == q * PER_SECTOR + j && q == d * i + s;
    MulMono(s + 1, d, PER_SECTOR);
    DivUnique(idx, ic, i, s * PER_SECTOR + j) by { assert i * (PER_SECTOR * d) == d * i * PER_SECTOR; }
  }

  lemma OneLess(x: nat, d: nat)
    requires 0 < d <= x
    ensures (x - d) / d == x / d - 1 && (x - d) % d == x % d && 1 <= x / d
  {
    var q := x / d;
    assert x == d * q + x % d;
    if q < 1 {
      MulMono(q, 0, d);
    }
    assert d * q == (q - 1) * d + d;
    DivUnique(x - d, d, q - 1, x % d);
  }

  lemma WithinOne(x: nat, d: nat)
    requires x < d
    ensures x / d == 0 && x % d == x
  {
    DivUnique(x, d, 0, x);
  }

  lemma SmallEntry(rest: nat, d: nat, ic: nat)
    requires 0 < d && ic == PER_SECTOR * d && rest < ic
    ensures rest / PER_SECTOR < d && rest % PER_SECTOR + rest / PER_SECTOR * PER_SECTOR == rest
  {
  }

  lemma FirstSector(g: Geometry, c: u32)
    requires g.Valid()
    ensures Clust2Sect(g, c) + g.csize < TWO32 && (Clust2Sect(g, c) == 0 <==> !(2 <= c < g.nFatent))
  {
    if 2 <= c < g.nFatent {
      ClusterPlace(g, c);
    } else {
      ClusterInvalid(g, c);
    }
  }

  /** The next entry of the same sector. */
  lemma NextInSector(g: Geometry, fat: seq<nat>, sclust: nat, idx: nat, p: Place)
    requires g.Valid() && g.RootValid() && |fat| == g.nFatent
    requires Locate(g, fat, sclust, idx) == Some(p) && (idx + 1) % PER_SECTOR != 0
    ensures Locate(g, fat, sclust, idx + 1) == Some(p.(offset := (idx + 1) % PER_SECTOR * SZ_DIRE))
    ensures p.sect != 0
  {
    hide Nth;
    SectorNonzero(g, fat, sclust, idx, p);
    SameSector(idx);
  }

  lemma SameSector(idx: nat)
    requires (idx + 1) % PER_SECTOR != 0
    ensures (idx + 1) / PER_SECTOR == idx / PER_SECTOR && (idx + 1) % PER_SECTOR == idx % PER_SECTOR + 1
  {
    DivUnique(idx + 1, PER_SECTOR, idx / PER_SECTOR, idx % PER_SECTOR + 1);
  }

  lemma SectorNonzero(g: Geometry, fat: seq<nat>, sclust: nat, idx: nat, p: Place)
    requires g.Valid() && g.RootValid() && |fat| == g.nFatent && Locate(g, fat, sclust, idx) == Some(p)
    ensures p.sect != 0 && (p.clust == 0 <==> Root(g, sclust) == 0) && (p.clust != 0 ==> 2 <= p.clust < |fat|)
  {
    hide Nth;
    if Root(g, sclust) != 0 {
      ClusterPlace(g, Nth(fat, Root(g, sclust), idx / PER_SECTOR / g.csize).value);
    }
  }

  /** The first entry of the next sector of the static table. */
  lemma NextStatic(g: Geometry, fat: seq<nat>, sclust: nat, idx: nat, p: Place)
    requires g.Valid() && g.RootValid() && |fat| == g.nFatent
    requires Locate(g, fat, sclust, idx) == Some(p) && p.clust == 0 && (idx + 1) % PER_SECTOR == 0
    ensures p.sect != 0 && p.sect + 1 < TWO32
    ensures Locate(g, fat, sclust, idx + 1) == if idx + 1 < g.nRootdir then Some(Place(0, p.sect + 1, 0)) else None
  {
    hide Nth;
    DivUnique(idx + 1, PER_SECTOR, idx / PER_SECTOR + 1, 0);
    SectorNonzero(g, fat, sclust, idx, p);
  }

  /** What an entry in a chain of clusters says about its cluster and sector. */
  lemma ChainPlace(g: Geometry, fat: seq<nat>, sclust: nat, idx: nat, p: Place)
    requires g.Valid() && g.RootValid() && |fat| == g.nFatent
    requires Locate(g, fat, sclust, idx) == Some(p) && p.clust != 0
    ensures p.sect != 0 && p.sect + 1 < TWO32 && 2 <= p.clust < |fat|
    ensures Nth(fat, Root(g, sclust), idx / PER_SECTOR / g.csize) == Some(p.clust)
    ensures p.sect == Clust2Sect(g, p.clust) + idx / PER_SECTOR % g.csize
  {
    hide Nth;
    SectorNonzero(g, fat, sclust, idx, p);
    ClusterPlace(g, p.clust);
    assert 0 <= idx / PER_SECTOR % g.csize < g.csize;
  }

  /** The first entry of the next sector of a chain: in the same cluster, or in the next one. */
  lemma NextDynamic(g: Geometry, fat: seq<nat>, sclust: nat, idx: nat, p: Place)
    requires g.Valid() && g.RootValid() && |fat| == g.nFatent
    requires Locate(g, fat, sclust, idx) == Some(p) && p.clust != 0 && (idx + 1) % PER_SECTOR == 0
    ensures p.sect != 0 && p.sect + 1 < TWO32 && 2 <= p.clust < |fat|
    ensures
      var next, q := Locate(g, fat, sclust, idx + 1), (idx + 1) / PER_SECTOR;
      if q % g.csize != 0 then next == Some(Place(p.clust, p.sect + 1, 0))
      else next == if 2 <= fat[p.clust] < |fat| then Some(Place(fat[p.clust], Clust2Sect(g, fat[p.clust]), 0)) else None
  {
    hide Nth, Clust2Sect;
    var q := idx / PER_SECTOR;
    DivUnique(idx + 1, PER_SECTOR, q + 1, 0);
    ChainPlace(g, fat, sclust, idx, p);
    NextQuotient(q, g.csize);
    NthStep(fat, Root(g, sclust), q / g.csize, p.clust);
  }

  lemma NextQuotient(q: nat, d: nat)
    requires 0 < d
    ensures if (q + 1) % d == 0 then (q + 1) / d == q / d + 1 else (q + 1) / d == q / d && (q + 1) % d == q % d + 1
  {
    assert q == d * (q / d) + q % d;
    if q % d + 1 < d {
      DivUnique(q + 1, d, q / d, q % d + 1);
    } else {
      DivUnique(q + 1, d, q / d + 1, 0) by { assert (q / d + 1) * d == d * (q / d) + d; }
    }
  }

  /** After stretching, the first entry of the new cluster is the next one. */
  lemma NextStretched(g: Geometry, fat: seq<nat>, fat': seq<nat>, sclust: nat, idx: nat, p: Place, r: nat)
    requires g.Valid() && g.RootValid() && |fat| == g.nFatent
    requires Locate(g, fat, sclust, idx) == Some(p) && p.clust != 0 && (idx + 1) % PER_SECTOR == 0
    requires (idx + 1) / PER_SECTOR % g.csize == 0 && Linked(g, fat, fat', p.clust, r) && fat[p.clust] >= |fat|
    ensures Locate(g, fat', sclust, idx + 1) == Some(Place(r, Clust2Sect(g, r), 0))
  {
    hide Nth;
    var first, q := Root(g, sclust), idx / PER_SECTOR;
    DivUnique(idx + 1, PER_SECTOR, q + 1, 0);
    SectorNonzero(g, fat, sclust, idx, p);
    NextQuotient(q, g.csize);
    LinkedLength(g, fat, fat', p.clust, r);
    NthKept(g, fat, fat', first, q / g.csize, q / g.csize, p.clust, r);
    NthStep(fat', first, q / g.csize, p.clust);
  }

  lemma StretchedPlace(g: Geometry, l: seq<Sector>, l': seq<Sector>, sclust: nat, idx: nat, p: Place, r: nat)
    requires g.Valid() && g.RootValid() && |l| == |l'| == g.total && Stretched(g, l, l', p.clust, r)
    requires Locate(g, Fat(g, l), sclust, idx) == Some(p) && p.clust != 0 && (idx + 1) % PER_SECTOR == 0
    requires (idx + 1) / PER_SECTOR % g.csize == 0 && p.clust < g.nFatent && Fat(g, l)[p.clust] >= g.nFatent
    ensures r < TWO32 && Locate(g, Fat(g, l'), sclust, idx + 1) == Some(Place(r, Clust2Sect(g, r), 0))
  {
    hide Fat, Locate;
    NextStretched(g, Fat(g, l), Fat(g, l'), sclust, idx, p, r);
  }
}
