/** Arithmetic of f_lseek: cluster starts in sectors and bytes. */
module FileSeek {
  import opened Words
  import opened Volume
  import opened FileLayout
  import opened FileBytes
  import opened FileCursor

  /** Sector k starts the i-th cluster. */
  ghost predicate StartOf(d: nat, i: nat, k: nat) {
    k == i * d
  }

  lemma StartZero(d: nat)
    ensures StartOf(d, 0, 0)
  {
  }

  lemma StartNext(d: nat, i: nat, k: nat)
    requires StartOf(d, i, k)
    ensures StartOf(d, i + 1, k + d)
  {
    OneMore(i, d);
  }

  /** Dividing by the bytes of a cluster is dividing by those of a sector and then by the sectors. */
  lemma ClusterBase(x: nat, d: nat, bcs: nat) returns (k: nat)
    requires 0 < d && bcs == d * SS
    ensures x / bcs == ClusterNo(d, x / SS) && StartOf(d, ClusterNo(d, x / SS), k)
    ensures x - x % bcs == k * SS && x % bcs < bcs
  {
    var q, r := x / SS, x % SS;
    var i, j := q / d, q % d;
    assert x == q * SS + r;
    assert q == d * i + j;
    k := i * d;
    assert x == k * SS + (j * SS + r);
    MulMono(j + 1, d, SS);
    DivUnique(x, bcs, i, j * SS + r) by { Regroup(i, d, bcs); }
  }

  lemma Regroup(i: int, d: int, bcs: int)
    requires bcs == d * SS
    ensures i * bcs == i * d * SS
  {
    assert i * (d * SS) == i * d * SS;
  }

  /** Below the end of the chain there is another cluster. */
  lemma MoreClusters(g: Geometry, chain: seq<nat>, ss: seq<nat>, i: nat, k: nat)
    requires Laid(g, chain, ss) && StartOf(g.csize, i, k) && k + g.csize < |ss|
    ensures i + 1 < |chain|
  {
    SectorsLength(g, chain);
    OneMore(i, g.csize);
    if |chain| <= i + 1 {
      MulMono(|chain|, i + 1, g.csize);
    }
  }

  /** The last cluster reaches to the end of the sectors. */
  lemma LastCluster(g: Geometry, chain: seq<nat>, ss: seq<nat>, i: nat, k: nat)
    requires Laid(g, chain, ss) && StartOf(g.csize, i, k) && i + 1 == |chain|
    ensures |ss| * SS == k * SS + g.csize * SS
  {
    hide Sectors;
    SectorsLength(g, chain);
    OneMore(i, g.csize);
  }

  /** A cluster of the chain has all its sectors among those of the file. */
  lemma ClusterInside(g: Geometry, chain: seq<nat>, ss: seq<nat>, i: nat, k: nat)
    requires Laid(g, chain, ss) && StartOf(g.csize, i, k) && i < |chain|
    ensures k + g.csize <= |ss|
  {
    SectorsLength(g, chain);
    OneMore(i, g.csize);
    MulMono(i + 1, |chain|, g.csize);
  }

  lemma InStart(d: nat, i: nat, k: nat, j: nat)
    requires StartOf(d, i, k) && j < d
    ensures ClusterNo(d, k + j) == i && (k + j) % d == j
  {
    DivUnique(k + j, d, i, j);
  }

  /** ofs bytes into the i-th cluster, at most to its end. */
  lemma SeekCursor(g: Geometry, chain: seq<nat>, ss: seq<nat>, dsect: nat, i: nat, k: nat, ofs: nat, clust: nat)
    requires Laid(g, chain, ss) && StartOf(g.csize, i, k) && i < |chain| && clust == chain[i]
    requires 0 < ofs <= g.csize * SS
    requires ofs % SS != 0 ==> k + ofs / SS < |ss| && dsect == ss[k + ofs / SS]
    ensures CursorAt(g.csize, chain, ss, dsect, k * SS + ofs, clust)
    ensures k * SS + ofs <= |ss| * SS
  {
    hide Sectors;
    ClusterInside(g, chain, ss, i, k);
    var p := k * SS + ofs;
    DivUnique(p - 1, SS, k + (ofs - 1) / SS, (ofs - 1) % SS);
    DivUnique(p, SS, k + ofs / SS, ofs % SS);
    InStart(g.csize, i, k, (ofs - 1) / SS);
  }

  /** The sector ofs bytes into the i-th cluster. */
  lemma SeekSector(g: Geometry, chain: seq<nat>, ss: seq<nat>, i: nat, k: nat, ofs: nat)
    requires Laid(g, chain, ss) && StartOf(g.csize, i, k) && i < |chain| && ofs % SS != 0 && ofs <= g.csize * SS
    ensures k + ofs / SS < |ss| && ofs / SS < g.csize
    ensures
      var c := chain[i];
      2 <= c < g.nFatent && Clust2Sect(g, c) != 0 && Clust2Sect(g, c) + ofs / SS == ss[k + ofs / SS]
  {
    hide Sectors;
    ClusterInside(g, chain, ss, i, k);
    InStart(g.csize, i, k, ofs / SS);
    SectorPlace(g, chain, ss, k + ofs / SS);
  }

  /** Sectors added behind do not change the bytes in front. */
  lemma FlattenGrown(d: seq<Sector>, d': seq<Sector>, n: nat, m: nat)
    requires n <= |d| * SS && |d| <= |d'| && d'[..|d|] == d && n <= m <= |d'| * SS
    ensures Flatten(d', m)[..n] == Flatten(d, n)
  {
    forall j | 0 <= j < n
      ensures Flatten(d', m)[j] == Flatten(d, n)[j]
    {
      ByteSector(j, |d|);
      assert d'[j / SS] == d'[..|d|][j / SS];
    }
  }
}
