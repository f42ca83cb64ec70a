/** An open file as a value: the disk, the chain and the sector buffer, and what each buffer operation does to them. */
module FileView {
  import opened Basics
  import opened Words
  import opened Volume
  import opened FatTable
  import opened FatChain
  import opened FileLayout

  ghost predicate NoneIs(ss: seq<nat>, s: int) {
    forall k :: 0 <= k < |ss| ==> ss[k] != s
  }

  /** Entries in use keep their value, except those of clusters that start in ss. */
  ghost predicate EntriesKept(g: Geometry, fat: seq<nat>, fat': seq<nat>, ss: seq<nat>)
    requires g.Valid()
  {
    |fat| == |fat'| <= TWO32 && forall c :: 2 <= c < |fat| && fat[c] != 0 && NoneIs(ss, Clust2Sect(g, c)) ==> fat'[c] == fat[c]
  }

  /** Outside the sectors ss no data sector differs, and no entry of a cluster in use. */
  ghost predicate OthersKept(g: Geometry, l: seq<Sector>, l': seq<Sector>, ss: seq<nat>) {
    && |l| == |l'| && (forall s :: 0 <= s < |l| && !g.InFat(s) && !g.InMirror(s) && NoneIs(ss, s) ==> l'[s] == l[s])
    && (g.Valid() && |l| == g.total ==> EntriesKept(g, Fat(g, l), Fat(g, l'), ss))
  }

  /** Every cluster is in use that does not start in ss. */
  ghost predicate Crowded(g: Geometry, l: seq<Sector>, ss: seq<nat>)
    requires g.Valid() && |l| == g.total
  {
    forall c :: 2 <= c < g.nFatent && NoneIs(ss, Clust2Sect(g, c)) ==> Fat(g, l)[c] != 0
  }

  /** A crowded disk stays crowded while a file only grows. */
  lemma CrowdedStays(g: Geometry, l: seq<Sector>, l': seq<Sector>, ss: seq<nat>, ss': seq<nat>)
    requires g.Valid() && |l| == |l'| == g.total && Crowded(g, l, ss) && OthersKept(g, l, l', ss') && ss <= ss'
    ensures Crowded(g, l', ss')
  {
    hide Fat, Clust2Sect;
    forall c | 2 <= c < g.nFatent && NoneIs(ss', Clust2Sect(g, c))
      ensures Fat(g, l')[c] != 0
    {
      NoneInPrefix(ss, ss', Clust2Sect(g, c));
    }
  }

  lemma NoneInPrefix(ss: seq<nat>, ss': seq<nat>, s: int)
    requires ss <= ss' && NoneIs(ss', s)
    ensures NoneIs(ss, s)
  {
    assert forall k :: 0 <= k < |ss| ==> ss[k] == ss'[k];
  }

  lemma OthersSelf(g: Geometry, l: seq<Sector>, ss: seq<nat>)
    ensures OthersKept(g, l, l, ss)
  {
    hide Fat, Clust2Sect;
  }

  /** Kept by two steps in turn, the file possibly growing in between. */
  lemma OthersTrans(g: Geometry, a: seq<Sector>, b: seq<Sector>, c: seq<Sector>, ss: seq<nat>, ss': seq<nat>)
    requires OthersKept(g, a, b, ss) && OthersKept(g, b, c, ss') && ss <= ss'
    ensures OthersKept(g, a, c, ss')
  {
    hide Fat, Clust2Sect;
    forall s | 0 <= s < |a| && !g.InFat(s) && !g.InMirror(s) && NoneIs(ss', s)
      ensures NoneIs(ss, s)
    {
      NoneInPrefix(ss, ss', s);
    }
    if g.Valid() && |a| == g.total {
      EntriesTrans(g, Fat(g, a), Fat(g, b), Fat(g, c), ss, ss');
    }
  }

  lemma EntriesTrans(g: Geometry, a: seq<nat>, b: seq<nat>, c: seq<nat>, ss: seq<nat>, ss': seq<nat>)
    requires g.Valid() && EntriesKept(g, a, b, ss) && EntriesKept(g, b, c, ss') && ss <= ss'
    ensures EntriesKept(g, a, c, ss')
  {
    hide Clust2Sect;
    forall x | 2 <= x < |a| && a[x] != 0 && NoneIs(ss', Clust2Sect(g, x))
      ensures c[x] == a[x]
    {
      NoneInPrefix(ss, ss', Clust2Sect(g, x));
    }
  }

  lemma EntriesSame(g: Geometry, fat: seq<nat>, ss: seq<nat>)
    requires g.Valid() && |fat| == g.nFatent
    ensures EntriesKept(g, fat, fat, ss)
  {
  }

  ghost predicate DataArea(g: Geometry, ss: seq<nat>) {
    forall k :: 0 <= k < |ss| ==> g.database <= ss[k] < g.total
  }

  /** Writing data sectors leaves the table alone. */
  lemma FatUntouched(g: Geometry, l: seq<Sector>, l': seq<Sector>)
    requires g.Valid() && |l| == |l'| == g.total && forall s :: 0 <= s < g.database ==> l'[s] == l[s]
    ensures Fat(g, l') == Fat(g, l)
  {
    hide Entry, Image;
    forall k | 0 <= k < g.fsize * SS
      ensures Image(g, l')[k] == Image(g, l)[k]
    {
      FatSector(g, k);
      ImageAt(g, l, k);
      ImageAt(g, l', k);
    }
    assert Image(g, l') == Image(g, l);
  }

  /** chain is the whole chain that starts at first; 0 starts the empty one. */
  ghost predicate Whole(fat: seq<nat>, chain: seq<nat>, first: nat) {
    if chain == [] then first == 0 else IsChain(fat, chain) && first == chain[0]
  }

  /** Places k to k + n - 1 of the file are consecutive sectors from sect on. */
  ghost predicate Consecutive(ss: seq<nat>, k: nat, sect: nat, n: nat) {
    k + n <= |ss| && forall j :: k <= j < k + n ==> ss[j] == sect + (j - k)
  }

  datatype View = View(
    g: Geometry,
    l: seq<Sector>,       // the logical disk
    window: int,          // the sector in the volume's window
    chain: seq<nat>,
    sclust: nat,
    fsize: nat,
    dsect: nat,           // the sector in the file's buffer, 0 for none
    dirty: bool,
    buf: Sector)
  {
    /** The sectors of the file, in order. */
    ghost function Places(): seq<nat>
      requires g.Valid() && InRange(g, chain)
    {
      Sectors(g, chain)
    }

    /** The chain and the buffer fit the disk; a clean buffer may still hold anything. */
    ghost predicate Placed() {
      && g.Valid() && |l| == g.total && InRange(g, chain)
      && Whole(Fat(g, l), chain, sclust)
      && fsize <= |Places()| * SS
      && DataArea(g, Places()) && Distinct(Places())
      && NoneIs(Places(), window)
      && (dsect == 0 || !NoneIs(Places(), dsect))
    }

    /** A clean buffer agrees with the disk. */
    ghost predicate Ok() {
      Placed() && if dirty then dsect != 0 else dsect != 0 ==> dsect < |l| && buf == l[dsect]
    }

    /** The file's sectors with the buffer laid over the one it holds. */
    ghost function Data(): (d: seq<Sector>)
      requires Placed()
      ensures |d| == |Places()|
    {
      Gather(l, Places(), dsect, buf)
    }
  }

  lemma PlacesFit(g: Geometry, chain: seq<nat>)
    requires g.Valid() && InRange(g, chain)
    ensures DataArea(g, Sectors(g, chain))
    ensures Distinct(chain) ==> Distinct(Sectors(g, chain))
  {
    forall k | 0 <= k < |Sectors(g, chain)|
      ensures g.database <= Sectors(g, chain)[k] < g.total
    {
      SectorsPlace(g, chain, k);
    }
    if Distinct(chain) {
      SectorsDistinct(g, chain);
    }
  }

  // ---------------------------------------------------------------- runs of sectors

  lemma FindInRun(ss: seq<nat>, k: nat, sect: nat, n: nat, s: int) returns (i: nat)
    requires Consecutive(ss, k, sect, n) && sect <= s < sect + n
    ensures k <= i < k + n && ss[i] == s
  {
    i := k + (s - sect);
  }

  lemma OutsideRun(ss: seq<nat>, k: nat, sect: nat, n: nat, s: int)
    requires Consecutive(ss, k, sect, n) && NoneIs(ss, s)
    ensures !(sect <= s < sect + n)
  {
    if sect <= s < sect + n {
      var i := FindInRun(ss, k, sect, n, s);
    }
  }

  lemma BesideRun(ss: seq<nat>, k: nat, sect: nat, n: nat, j: nat)
    requires Distinct(ss) && Consecutive(ss, k, sect, n) && j < |ss| && !(k <= j < k + n)
    ensures !(sect <= ss[j] < sect + n)
  {
    if sect <= ss[j] < sect + n {
      var i := FindInRun(ss, k, sect, n, ss[j]);
    }
  }

  /** A run of file sectors is in the data area, and the window is not in it. */
  lemma RunPlace(v: View, k: nat, sect: nat, n: nat)
    requires v.Placed() && 0 < n && Consecutive(v.Places(), k, sect, n)
    ensures v.g.database <= sect && sect + n <= v.g.total && !(sect <= v.window < sect + n)
  {
    var ss := v.Places();
    assert ss[k] == sect && ss[k + n - 1] == sect + n - 1;
    OutsideRun(ss, k, sect, n, v.window);
  }

  /** The unsigned comparison `dsect - sect < n`. */
  lemma InRun(dsect: u32, sect: nat, n: nat)
    requires 0 < sect && sect + n < TWO32
    ensures ((dsect - sect) % TWO32 < n) <==> sect <= dsect < sect + n
    ensures sect <= dsect ==> (dsect - sect) % TWO32 == dsect - sect
  {
    if sect <= dsect {
      DivUnique(dsect - sect, TWO32, 0, dsect - sect);
    } else {
      DivUnique(dsect - sect, TWO32, -1, dsect - sect + TWO32);
    }
  }

  // ---------------------------------------------------------------- what the buffer operations do

  /** Writing the buffer back changes nothing in the file. */
  lemma Flushed(v: View, l': seq<Sector>)
    requires v.Ok() && v.dirty && |l'| == |v.l| && forall s :: 0 <= s < |v.l| && s != v.dsect ==> l'[s] == v.l[s]
    ensures v.g.database <= v.dsect < v.g.total && v.dsect != v.window
    ensures OthersKept(v.g, v.l, l', v.Places()) && Fat(v.g, l') == Fat(v.g, v.l)
    ensures l'[v.dsect] == v.buf ==> v.(l := l', dirty := false).Ok() && v.(l := l', dirty := false).Data() == v.Data()
  {
    hide Fat, Whole, Sectors;
    var k :| 0 <= k < |v.Places()| && v.Places()[k] == v.dsect;
    FatUntouched(v.g, v.l, l');
    EntriesSame(v.g, Fat(v.g, v.l), v.Places());
  }

  /** Loading another sector into a clean buffer changes nothing in the file. */
  lemma Loaded(v: View, k: nat)
    requires v.Ok() && !v.dirty && k < |v.Places()|
    ensures var sect := v.Places()[k]; v.g.database <= sect < v.g.total && sect != v.window
    ensures
      var sect := v.Places()[k];
      var v' := v.(dsect := sect, buf := v.l[sect]);
      v'.Ok() && v'.Data() == v.Data()
  {
    hide Fat, Whole, Sectors;
  }

  /** Reading a run from the disk, with the dirty buffer in its place, reads the file. */
  lemma ReadRun(v: View, k: nat, sect: nat, n: nat)
    requires v.Ok() && 0 < n && Consecutive(v.Places(), k, sect, n)
    ensures sect + n <= |v.l|
    ensures
      var raw := v.l[sect..sect + n];
      v.Data()[k..k + n] == if v.dirty && sect <= v.dsect < sect + n then raw[v.dsect - sect := v.buf] else raw
  {
    hide Fat, Whole, Sectors;
    RunPlace(v, k, sect, n);
    var raw := v.l[sect..sect + n];
    var want := if v.dirty && sect <= v.dsect < sect + n then raw[v.dsect - sect := v.buf] else raw;
    var run := v.Data()[k..k + n];
    forall j | 0 <= j < n
      ensures run[j] == want[j]
    {
      assert v.Places()[k + j] == sect + j;
    }
  }

  /** Writing a run past a clean buffer, which is refreshed if it lies inside. */
  lemma WroteRun(v: View, l': seq<Sector>, src: seq<Sector>, k: nat, sect: nat)
    requires v.Ok() && !v.dirty && 0 < |src| && Consecutive(v.Places(), k, sect, |src|) && |l'| == |v.l|
    requires forall s :: 0 <= s < |v.l| && !(sect <= s < sect + |src|) ==> l'[s] == v.l[s]
    ensures OthersKept(v.g, v.l, l', v.Places()) && Fat(v.g, l') == Fat(v.g, v.l)
    ensures sect + |src| <= |v.l|
    ensures
      var v' := v.(l := l', buf := if sect <= v.dsect < sect + |src| then src[v.dsect - sect] else v.buf);
      l'[sect..sect + |src|] == src ==>
        v'.Ok() && v'.Data() == v.Data()[..k] + src + v.Data()[k + |src|..]
  {
    hide Fat, Whole, Sectors;
    RunPlace(v, k, sect, |src|);
    forall s | 0 <= s < |v.l| && NoneIs(v.Places(), s)
      ensures l'[s] == v.l[s]
    {
      OutsideRun(v.Places(), k, sect, |src|, s);
    }
    FatUntouched(v.g, v.l, l');
    EntriesSame(v.g, Fat(v.g, v.l), v.Places());
    if l'[sect..sect + |src|] == src {
      assert forall s :: sect <= s < sect + |src| ==> l'[s] == src[s - sect] by {
        assert forall s :: sect <= s < sect + |src| ==> l'[s] == l'[sect..sect + |src|][s - sect];
      }
      WroteData(v, l', src, k, sect);
    }
  }

  lemma WroteData(v: View, l': seq<Sector>, src: seq<Sector>, k: nat, sect: nat)
    requires v.Ok() && !v.dirty && 0 < |src| && Consecutive(v.Places(), k, sect, |src|) && |l'| == |v.l|
    requires forall s :: 0 <= s < |v.l| && !(sect <= s < sect + |src|) ==> l'[s] == v.l[s]
    requires sect + |src| <= |v.l| && forall s :: sect <= s < sect + |src| ==> l'[s] == src[s - sect]
    requires Fat(v.g, l') == Fat(v.g, v.l)
    ensures
      var v' := v.(l := l', buf := if sect <= v.dsect < sect + |src| then src[v.dsect - sect] else v.buf);
      v'.Ok() && v'.Data() == v.Data()[..k] + src + v.Data()[k + |src|..]
  {
    hide Fat, Whole, Sectors;
    var ss, n := v.Places(), |src|;
    var v' := v.(l := l', buf := if sect <= v.dsect < sect + n then src[v.dsect - sect] else v.buf);
    assert v'.Ok();
    GatherRun(v.l, l', ss, v.dsect, v.buf, v'.buf, src, k, sect);
  }

  /** The run on the disk is the run in the file. */
  lemma GatherRun(l: seq<Sector>, l': seq<Sector>, ss: seq<nat>, dsect: nat, buf: Sector, buf': Sector, src: seq<Sector>, k: nat, sect: nat)
    requires Distinct(ss) && Consecutive(ss, k, sect, |src|) && |l'| == |l| && forall j :: 0 <= j < |ss| ==> ss[j] < |l|
    requires forall s :: 0 <= s < |l| && !(sect <= s < sect + |src|) ==> l'[s] == l[s]
    requires sect + |src| <= |l| && forall s :: sect <= s < sect + |src| ==> l'[s] == src[s - sect]
    requires buf' == if sect <= dsect < sect + |src| then src[dsect - sect] else buf
    ensures Gather(l', ss, dsect, buf') == Gather(l, ss, dsect, buf)[..k] + src + Gather(l, ss, dsect, buf)[k + |src|..]
  {
    var n := |src|;
    var was, now := Gather(l, ss, dsect, buf), Gather(l', ss, dsect, buf');
    var want := was[..k] + src + was[k + n..];
    forall j | 0 <= j < |ss|
      ensures now[j] == want[j]
    {
      if k <= j < k + n {
        assert ss[j] == sect + (j - k);
      } else {
        BesideRun(ss, k, sect, n, j);
      }
    }
  }

  /** Filling the buffer for sector k and marking it dirty replaces that sector of the file. */
  lemma PutInBuffer(v: View, k: nat, b: Sector)
    requires v.Ok() && k < |v.Places()| && (v.dsect == v.Places()[k] || !v.dirty)
    ensures
      var v' := v.(dsect := v.Places()[k], buf := b, dirty := true);
      v'.Ok() && v'.Data() == v.Data()[k := b]
  {
    hide Fat, Whole, Sectors;
    var v' := v.(dsect := v.Places()[k], buf := b, dirty := true);
    assert v'.Ok();
    forall j | 0 <= j < |v.Places()|
      ensures v'.Data()[j] == v.Data()[k := b][j]
    {
      assert j != k ==> v.Places()[j] != v.Places()[k];
    }
  }

  /** The FAT functions leave the window where it was, invalid, or in the FAT: never on the file. */
  lemma WindowMoved(v: View, w: int)
    requires v.Ok() && (w == v.window || w == NOSECT || v.g.InFat(w))
    ensures v.(window := w).Ok() && v.(window := w).Data() == v.Data()
  {
    hide Fat, Whole, Sectors;
  }

  /** A cluster r linked at the end of the chain, or as its first one, adds sectors at the end of the file. */
  lemma Grown(v: View, l': seq<Sector>, w: int, r: nat)
    requires v.Ok() && SameData(v.g, v.l, l') && v.g.InFat(w)
    requires Linked(v.g, Fat(v.g, v.l), Fat(v.g, l'), if v.chain == [] then 0 else v.chain[|v.chain| - 1], r)
    ensures
      var v' := v.(l := l', window := w, chain := v.chain + [r], sclust := if v.chain == [] then r else v.sclust);
      && v'.Ok() && v.Places() <= v'.Places() && |v'.Places()| == |v.Places()| + v.g.csize
      && v'.Data()[..|v.Places()|] == v.Data()
  {
    hide Fat;
    var v' := v.(l := l', window := w, chain := v.chain + [r], sclust := if v.chain == [] then r else v.sclust);
    SectorsGrow(v.g, v.chain, r);
    WholeGrown(v, l', r);
    PlacesFit(v.g, v'.chain);
    hide Sectors, Whole, Linked;
    assert forall k :: 0 <= k < |v.Places()| ==> v'.Places()[k] == v.Places()[k];
    GrownPlaced(v, v');
  }

  lemma WholeGrown(v: View, l': seq<Sector>, r: nat)
    requires v.Placed() && |l'| == |v.l|
    requires Linked(v.g, Fat(v.g, v.l), Fat(v.g, l'), if v.chain == [] then 0 else v.chain[|v.chain| - 1], r)
    ensures Whole(Fat(v.g, l'), v.chain + [r], if v.chain == [] then r else v.sclust) && Distinct(v.chain + [r]) && 2 <= r < v.g.nFatent
  {
    hide Fat, Sectors;
    if v.chain == [] {
      NewChain(v.g, Fat(v.g, v.l), Fat(v.g, l'), r);
      assert v.chain + [r] == [r];
    } else {
      GrownChain(v.g, Fat(v.g, v.l), Fat(v.g, l'), v.chain, r);
    }
  }

  lemma GrownPlaced(v: View, v': View)
    requires v.Ok() && v'.g == v.g && SameData(v.g, v.l, v'.l) && v.g.InFat(v'.window)
    requires InRange(v.g, v'.chain) && Whole(Fat(v.g, v'.l), v'.chain, v'.sclust)
    requires DataArea(v.g, v'.Places()) && Distinct(v'.Places()) && v.Places() <= v'.Places()
    requires v'.fsize == v.fsize && v'.dsect == v.dsect && v'.dirty == v.dirty && v'.buf == v.buf
    ensures v'.Ok() && v'.Data()[..|v.Places()|] == v.Data()
  {
    hide Fat, Whole, Sectors;
    assert forall k :: 0 <= k < |v.Places()| ==> v'.Places()[k] == v.Places()[k];
    forall k | 0 <= k < |v.Places()|
      ensures v'.l[v.Places()[k]] == v.l[v.Places()[k]]
    {
      assert v.g.database <= v.Places()[k] < v.g.total;
    }
  }


  /** A file just opened. */
  lemma FreshView(v: View)
    requires v.g.Valid() && |v.l| == v.g.total && InRange(v.g, v.chain) && Whole(Fat(v.g, v.l), v.chain, v.sclust)
    requires v.fsize <= |v.Places()| * SS && NoneIs(v.Places(), v.window) && v.dsect == 0 && !v.dirty
    ensures v.Ok()
  {
    hide Fat, Sectors;
    PlacesFit(v.g, v.chain);
    assert Distinct(v.chain);
  }

  /** Changing no entry in use but that of one of the file's clusters keeps everything else, on a full success or not. */
  lemma TableOthers(v: View, l': seq<Sector>, i: nat, prev: nat)
    requires v.Ok() && SameData(v.g, v.l, l') && (if i == 0 then prev == 0 else i <= |v.chain| && prev == v.chain[i - 1])
    requires forall d :: 0 <= d < v.g.nFatent && Fat(v.g, v.l)[d] != 0 && d != prev ==> Fat(v.g, l')[d] == Fat(v.g, v.l)[d]
    ensures OthersKept(v.g, v.l, l', v.Places())
  {
    hide Fat, Clust2Sect, Sectors, Whole;
    var fat, fat' := Fat(v.g, v.l), Fat(v.g, l');
    forall c | 2 <= c < |fat| && fat[c] != 0 && NoneIs(v.Places(), Clust2Sect(v.g, c))
      ensures fat'[c] == fat[c]
    {
      if c == prev {
        ChainStart(v.g, v.chain, i - 1);
        assert false;
      }
    }
  }

  /** A cluster of a chain starts in one of its sectors. */
  lemma ChainStart(g: Geometry, chain: seq<nat>, i: nat)
    requires g.Valid() && InRange(g, chain) && i < |chain|
    ensures !NoneIs(Sectors(g, chain), Clust2Sect(g, chain[i]))
  {
    hide Sectors;
    var k := i * g.csize;
    SectorsLength(g, chain);
    MulMono(i + 1, |chain|, g.csize);
    OneMore(i, g.csize);
    DivUnique(k, g.csize, i, 0);
    SectorAt(g, chain, k);
    assert Sectors(g, chain)[k] == Clust2Sect(g, chain[i]);
  }

  /** Conversely, a cluster that starts in one of its sectors is one of the chain. */
  lemma StartsInChain(g: Geometry, chain: seq<nat>, c: nat)
    requires g.Valid() && InRange(g, chain) && 2 <= c < g.nFatent && !NoneIs(Sectors(g, chain), Clust2Sect(g, c))
    ensures c in chain
  {
    hide Sectors;
    var k :| 0 <= k < |Sectors(g, chain)| && Sectors(g, chain)[k] == Clust2Sect(g, c);
    SectorsPlace(g, chain, k);
    OwnerOf(g, c, 0);
  }

  /** With the file in order, no room outside it is no room at all. */
  lemma CrowdedIsFull(v: View)
    requires v.Ok()
    ensures Crowded(v.g, v.l, v.Places()) <==> Full(Fat(v.g, v.l))
  {
    hide Fat, Sectors, Clust2Sect;
    if Crowded(v.g, v.l, v.Places()) {
      forall c | 2 <= c < v.g.nFatent
        ensures Fat(v.g, v.l)[c] != 0
      {
        if !NoneIs(v.Places(), Clust2Sect(v.g, c)) {
          StartsInChain(v.g, v.chain, c);
          var x :| 0 <= x < |v.chain| && v.chain[x] == c;
          assert LinkAt(Fat(v.g, v.l), v.chain, x);
        }
      }
    }
  }

  /** With a clean buffer, sector k of the file is where its cluster is on the disk. */
  lemma CleanSector(v: View, k: nat)
    requires v.Ok() && !v.dirty && k < |v.Data()|
    ensures var s := ChainSector(v.g, v.chain, k); 0 <= s < |v.l| && v.Data()[k] == v.l[s]
  {
    hide Fat, Whole, Sectors, ChainSector;
    ChainSectorIs(v.g, v.chain, k);
  }

  /** The size may grow up to the end of the chain. */
  lemma Resized(v: View, n: nat)
    requires v.Ok() && n <= |v.Places()| * SS
    ensures v.(fsize := n).Ok() && v.(fsize := n).Data() == v.Data()
  {
    hide Fat, Whole, Sectors;
  }
}
