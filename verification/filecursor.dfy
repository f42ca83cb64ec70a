/** Where the cursor of a file is: its cluster, its sector, and the links between them. */
module FileCursor {
  import opened Words
  import opened Volume
  import opened FatTable
  import opened FatChain
  import opened FileLayout
  import opened FileView
  import opened FileBytes

  /** ss are the sectors of chain, in order. */
  ghost predicate Laid(g: Geometry, chain: seq<nat>, ss: seq<nat>) {
    g.Valid() && InRange(g, chain) && ss == Sectors(g, chain)
  }

  /** The place in its chain of the cluster that holds sector k. */
  function ClusterNo(d: nat, k: nat): (i: nat)
    requires 0 < d
  {
    DivShrinks(k, d);
    k / d
  }

  /** clust is the cluster of the byte before fptr, and inside a sector the buffer holds that sector. */
  ghost predicate CursorAt(d: nat, chain: seq<nat>, ss: seq<nat>, dsect: nat, fptr: nat, clust: nat)
    requires 0 < d
  {
    && (fptr > 0 ==> ClusterNo(d, (fptr - 1) / SS) < |chain| && clust == chain[ClusterNo(d, (fptr - 1) / SS)])
    && (fptr % SS != 0 ==> fptr / SS < |ss| && dsect == ss[fptr / SS])
  }

  lemma BeforeSector(fptr: nat)
    requires fptr > 0
    ensures (fptr - 1) / SS == if fptr % SS == 0 then fptr / SS - 1 else fptr / SS
    ensures fptr % SS == 0 ==> fptr / SS >= 1
  {
  }

  /** Sector k of the file, from its cluster. */
  lemma SectorPlace(g: Geometry, chain: seq<nat>, ss: seq<nat>, k: nat)
    requires Laid(g, chain, ss) && k < |ss|
    ensures ClusterNo(g.csize, k) < |chain|
    ensures
      var c := chain[ClusterNo(g.csize, k)];
      2 <= c < g.nFatent && Clust2Sect(g, c) != 0 && Clust2Sect(g, c) + k % g.csize == ss[k]
  {
    hide Sectors;
    SectorAt(g, chain, k);
    ClusterPlace(g, chain[k / g.csize]);
  }

  /** The rest of its cluster after sector k. */
  lemma RestOfCluster(g: Geometry, chain: seq<nat>, ss: seq<nat>, k: nat, n: nat)
    requires Laid(g, chain, ss) && k < |ss| && 0 < n && k % g.csize + n <= g.csize
    ensures Consecutive(ss, k, ss[k], n)
    ensures ClusterNo(g.csize, k + n - 1) == ClusterNo(g.csize, k)
  {
    hide Sectors;
    var d := g.csize;
    SectorAt(g, chain, k);
    SectorsLength(g, chain);
    WholeCluster(k, n, d, |chain|);
    forall j | k <= j < k + n
      ensures ss[j] == ss[k] + (j - k)
    {
      SameCluster(k, j - k, d);
      SectorAt(g, chain, j);
    }
    SameCluster(k, n - 1, d);
  }

  lemma WholeCluster(k: nat, n: nat, d: nat, m: nat)
    requires 0 < d && k % d + n <= d && k / d < m
    ensures k + n <= m * d
  {
    var q := k / d;
    assert k == d * q + k % d;
    OneMore(q, d);
    MulMono(q + 1, m, d);
  }

  /** A chain with room for sector k has its cluster, and the other way round. */
  lemma RoomFor(g: Geometry, chain: seq<nat>, ss: seq<nat>, k: nat)
    requires Laid(g, chain, ss)
    ensures k < |ss| <==> ClusterNo(g.csize, k) < |chain|
  {
    hide Sectors;
    SectorsLength(g, chain);
    var d := g.csize;
    if k < |ss| {
      SectorAt(g, chain, k);
    } else if k / d < |chain| {
      assert k % d < d;
      WholeCluster(k, 1, d, |chain|);
    }
  }

  /** On a cluster boundary the link of the current cluster is the next one of the chain. */
  lemma NextLink(d: nat, fat: seq<nat>, chain: seq<nat>, ss: seq<nat>, dsect: nat, fptr: nat, clust: nat)
    requires 0 < d && IsChain(fat, chain) && CursorAt(d, chain, ss, dsect, fptr, clust)
    requires 0 < fptr && fptr % SS == 0 && fptr / SS % d == 0
    ensures
      var i := ClusterNo(d, fptr / SS);
      && 1 <= i <= |chain| && clust == chain[i - 1] && 2 <= clust < |fat|
      && (if i < |chain| then fat[clust] == chain[i] && 2 <= chain[i] < |fat| else fat[clust] >= |fat|)
  {
    BeforeSector(fptr);
    PreviousCluster(fptr / SS, d);
    ChainLink(fat, chain, ClusterNo(d, fptr / SS) - 1);
    hide IsChain;
  }

  lemma ChainLink(fat: seq<nat>, chain: seq<nat>, i: nat)
    requires IsChain(fat, chain) && i < |chain|
    ensures 2 <= chain[i] < |fat|
    ensures if i + 1 < |chain| then fat[chain[i]] == chain[i + 1] && 2 <= chain[i + 1] < |fat| else fat[chain[i]] >= |fat|
  {
    assert LinkAt(fat, chain, i);
  }

  /** Inside a cluster the current cluster is that of the sector the cursor is in. */
  lemma SameLink(d: nat, chain: seq<nat>, ss: seq<nat>, dsect: nat, fptr: nat, clust: nat)
    requires 0 < d && CursorAt(d, chain, ss, dsect, fptr, clust) && 0 < fptr && (fptr % SS != 0 || fptr / SS % d != 0)
    ensures var i := ClusterNo(d, fptr / SS); i < |chain| && clust == chain[i]
  {
    BeforeSector(fptr);
    if fptr % SS == 0 {
      PreviousCluster(fptr / SS, d);
    }
  }

  /** After moving on within sector k or to its end. */
  lemma CursorMoved(d: nat, chain: seq<nat>, ss: seq<nat>, dsect: nat, fptr: nat, clust: nat, k: nat)
    requires 0 < d && k < |ss| && k * SS < fptr <= (k + 1) * SS
    requires ClusterNo(d, k) < |chain| && clust == chain[ClusterNo(d, k)]
    requires fptr % SS != 0 ==> dsect == ss[k]
    ensures CursorAt(d, chain, ss, dsect, fptr, clust)
  {
    hide ClusterNo;
    DivUnique(fptr - 1, SS, k, fptr - 1 - k * SS);
    if fptr < (k + 1) * SS {
      DivUnique(fptr, SS, k, fptr - k * SS);
    } else {
      DivUnique(fptr, SS, k + 1, 0);
    }
  }

  lemma FreshCursor(d: nat, chain: seq<nat>, ss: seq<nat>, dsect: nat, clust: nat)
    requires 0 < d
    ensures CursorAt(d, chain, ss, dsect, 0, clust)
  {
  }

  /** What a file in order says about its chain. */
  lemma ViewChain(v: View)
    requires v.Ok()
    ensures Laid(v.g, v.chain, v.Places()) && InRange(v.g, v.chain) && 0 < v.g.csize
    ensures v.chain != [] ==> IsChain(Fat(v.g, v.l), v.chain) && v.sclust == v.chain[0] && 2 <= v.sclust < v.g.nFatent
    ensures v.chain == [] ==> v.sclust == 0 && v.Places() == []
    ensures v.fsize <= |v.Places()| * SS
  {
    hide Fat;
  }

  lemma SectorBefore(fptr: nat, n: nat, m: nat)
    requires 0 < n && fptr + n <= m * SS
    ensures fptr / SS < m && fptr == fptr / SS * SS + fptr % SS
  {
  }

  lemma InSector(d: nat, chain: seq<nat>, ss: seq<nat>, dsect: nat, fptr: nat, clust: nat)
    requires 0 < d && CursorAt(d, chain, ss, dsect, fptr, clust) && fptr % SS != 0
    ensures fptr / SS < |ss| && dsect == ss[fptr / SS]
  {
  }

  /** A piece ends in its sector or at the end of it. */
  lemma PieceEnds(fptr: nat, n: nat)
    requires 0 < n && fptr % SS + n <= SS
    ensures fptr / SS * SS < fptr + n <= (fptr / SS + 1) * SS
  {
  }

  lemma EndOfRun(d: nat, chain: seq<nat>, ss: seq<nat>, dsect: nat, k: nat, n: nat, clust: nat)
    requires 0 < d && 0 < n && k + n <= |ss| && ClusterNo(d, k + n - 1) == ClusterNo(d, k)
    requires ClusterNo(d, k) < |chain| && clust == chain[ClusterNo(d, k)]
    ensures CursorAt(d, chain, ss, dsect, (k + n) * SS, clust)
  {
    hide ClusterNo;
    var p := (k + n) * SS;
    DivUnique(p - 1, SS, k + n - 1, SS - 1);
    DivUnique(p, SS, k + n, 0);
  }

  /** What the buffer holds of the sector the cursor is in. */
  lemma BufferPiece(v: View, k: nat, fptr: nat, n: nat)
    requires v.Ok() && k < |v.Places()| && v.dsect == v.Places()[k] && k == fptr / SS && fptr % SS + n <= SS
    ensures fptr + n <= |v.Data()| * SS && Slice(v.Data(), fptr, n) == v.buf[fptr % SS..fptr % SS + n]
  {
    hide Fat, Sectors, Whole;
    PieceEnd(fptr, n, |v.Data()|);
    SlicePiece(v.Data(), fptr, n);
  }

  lemma CapacityOf(v: View)
    requires v.Ok()
    ensures v.fsize <= |v.Places()| * SS && |v.Data()| == |v.Places()|
  {
    hide Fat, Sectors, Whole;
  }

  lemma SectorInside(v: View, k: nat)
    requires v.Ok() && k < |v.Places()|
    ensures v.g.database <= v.Places()[k] < v.g.total < NOSECT
  {
    hide Fat, Sectors, Whole;
  }

  /** The link out of the cluster before the i-th one. */
  lemma LinkOf(v: View, i: nat)
    requires v.Ok() && 1 <= i <= |v.chain|
    ensures
      var c, fat := v.chain[i - 1], Fat(v.g, v.l);
      2 <= c < |fat| && if i < |v.chain| then fat[c] == v.chain[i] && 2 <= v.chain[i] < |fat| else fat[c] >= |fat|
  {
    hide Fat, Sectors;
    assert LinkAt(Fat(v.g, v.l), v.chain, i - 1);
  }
}
