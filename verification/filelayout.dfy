/** Where the bytes of a file are: clusters, sectors, and the private sector buffer laid over them. */
module FileLayout {
  import opened Basics
  import opened Words
  import opened Volume

  // ---------------------------------------------------------------- clusters and sectors

  /** clust2sect: 0 for an invalid cluster number. */
  function Clust2Sect(g: Geometry, clst: u32): (s: nat)
    requires g.Valid()
  {
    var c := (clst - 2) % TWO32;
    if c >= g.nFatent - 2 then 0 else c * g.csize + g.database
  }

  predicate InRange(g: Geometry, chain: seq<nat>) {
    forall i :: 0 <= i < |chain| ==> 2 <= chain[i] < g.nFatent
  }

  /** A valid cluster starts within the data area, whole. */
  lemma ClusterPlace(g: Geometry, c: nat)
    requires g.Valid() && 2 <= c < g.nFatent
    ensures
      var s := Clust2Sect(g, c);
      g.database <= s && s + g.csize <= g.total && s == (c - 2) * g.csize + g.database && s != 0
  {
    DivUnique(c - 2, TWO32, 0, c - 2);
    MulMono(0, c - 2, g.csize);
    MulMono(c - 1, g.nFatent - 2, g.csize);
    assert (c - 1) * g.csize == (c - 2) * g.csize + g.csize;
  }

  lemma ClusterInvalid(g: Geometry, c: u32)
    requires g.Valid() && !(2 <= c < g.nFatent)
    ensures Clust2Sect(g, c) == 0
  {
    if c < 2 {
      DivUnique(c - 2, TWO32, -1, c - 2 + TWO32);
    } else {
      DivUnique(c - 2, TWO32, 0, c - 2);
    }
  }

  /** Sector j of cluster c: clusters count from 2 at the start of the data area. */
  function ClusterSector(g: Geometry, c: int, j: int): int {
    g.database + (c - 2) * g.csize + j
  }

  lemma ClusterSectorIs(g: Geometry, c: nat, j: nat)
    requires g.Valid() && 2 <= c < g.nFatent
    ensures Clust2Sect(g, c) + j == ClusterSector(g, c, j)
  {
    ClusterPlace(g, c);
  }

  /** Where sector k of a chain is on the disk, d sectors to the cluster: sector k % d of the cluster number k / d. */
  function ChainSector(g: Geometry, chain: seq<nat>, k: nat): int {
    if 0 < g.csize && 0 <= k / g.csize < |chain| then ClusterSector(g, chain[k / g.csize], k % g.csize) else 0
  }

  lemma ChainSectorIs(g: Geometry, chain: seq<nat>, k: nat)
    requires g.Valid() && InRange(g, chain) && k < |Sectors(g, chain)|
    ensures Sectors(g, chain)[k] == ChainSector(g, chain, k)
  {
    hide Sectors, Clust2Sect, ClusterSector;
    SectorAt(g, chain, k);
    ClusterSectorIs(g, chain[k / g.csize], k % g.csize);
  }

  /** The cluster a data sector belongs to. */
  function Owner(g: Geometry, s: int): int
    requires g.Valid()
  {
    (s - g.database) / g.csize + 2
  }

  lemma OwnerOf(g: Geometry, c: nat, j: nat)
    requires g.Valid() && 2 <= c < g.nFatent && j < g.csize
    ensures Owner(g, Clust2Sect(g, c) + j) == c
  {
    ClusterPlace(g, c);
    DivUnique((c - 2) * g.csize + j, g.csize, c - 2, j);
  }

  function SectorOf(g: Geometry, c: u32, j: nat): nat
    requires g.Valid()
  {
    Clust2Sect(g, c) + j
  }

  /** The sectors of a chain, in file order. */
  function Sectors(g: Geometry, chain: seq<nat>): (ss: seq<nat>)
    requires g.Valid() && InRange(g, chain)
  {
    if chain == [] then []
    else Sectors(g, chain[..|chain| - 1]) + seq(g.csize, j requires 0 <= j < g.csize => SectorOf(g, chain[|chain| - 1], j))
  }

  lemma {:induction false} SectorsLength(g: Geometry, chain: seq<nat>)
    requires g.Valid() && InRange(g, chain)
    ensures |Sectors(g, chain)| == |chain| * g.csize
    decreases |chain|
  {
    if chain != [] {
      SectorsLength(g, chain[..|chain| - 1]);
      OneMore(|chain| - 1, g.csize);
    }
  }

  lemma OneMore(n: int, d: int)
    ensures (n + 1) * d == n * d + d
  {
  }

  /** Sector k of the file is sector k % csize of cluster k / csize of its chain. */
  lemma {:induction false} SectorAt(g: Geometry, chain: seq<nat>, k: nat)
    requires g.Valid() && InRange(g, chain) && k < |Sectors(g, chain)|
    ensures 0 <= k / g.csize < |chain| && 0 <= k % g.csize < g.csize
    ensures Sectors(g, chain)[k] == Clust2Sect(g, chain[k / g.csize]) + k % g.csize
    decreases |chain|
  {
    var n := |chain| - 1;
    var before := chain[..n];
    SectorsLength(g, before);
    if k < n * g.csize {
      SectorAt(g, before, k);
    } else {
      DivUnique(k, g.csize, n, k - n * g.csize);
    }
  }

  lemma SectorsPlace(g: Geometry, chain: seq<nat>, k: nat)
    requires g.Valid() && InRange(g, chain) && k < |Sectors(g, chain)|
    ensures g.database <= Sectors(g, chain)[k] < g.total
    ensures k / g.csize < |chain| && Owner(g, Sectors(g, chain)[k]) == chain[k / g.csize]
  {
    SectorAt(g, chain, k);
    ClusterPlace(g, chain[k / g.csize]);
    OwnerOf(g, chain[k / g.csize], k % g.csize);
  }

  lemma SectorsDistinct(g: Geometry, chain: seq<nat>)
    requires g.Valid() && InRange(g, chain) && Distinct(chain)
    ensures Distinct(Sectors(g, chain))
  {
    var ss := Sectors(g, chain);
    forall i, j | 0 <= i < j < |ss|
      ensures ss[i] != ss[j]
    {
      SectorAt(g, chain, i);
      SectorAt(g, chain, j);
      SectorsPlace(g, chain, i);
      SectorsPlace(g, chain, j);
      if ss[i] == ss[j] {
        SamePlace(i, j, g.csize, chain);
      }
    }
  }

  lemma SamePlace(i: nat, j: nat, d: nat, chain: seq<nat>)
    requires 0 < d && Distinct(chain) && i / d < |chain| && j / d < |chain| && chain[i / d] == chain[j / d] && i % d == j % d
    ensures i == j
  {
    DivShrinks(i, d);
    DivShrinks(j, d);
    assert i / d == j / d;
    assert i == d * (i / d) + i % d && j == d * (j / d) + j % d;
  }

  /** Growing the chain adds sectors at the end. */
  lemma SectorsGrow(g: Geometry, chain: seq<nat>, r: nat)
    requires g.Valid() && InRange(g, chain) && 2 <= r < g.nFatent
    ensures InRange(g, chain + [r]) && Sectors(g, chain) <= Sectors(g, chain + [r])
    ensures |Sectors(g, chain + [r])| == |Sectors(g, chain)| + g.csize
  {
    var t := chain + [r];
    assert t[..|t| - 1] == chain;
  }

  // ---------------------------------------------------------------- positions

  /** Moving on within a cluster. */
  lemma SameCluster(k: nat, j: nat, d: nat)
    requires 0 < d && k % d + j < d
    ensures (k + j) / d == k / d && (k + j) % d == k % d + j
  {
    assert k == d * (k / d) + k % d;
    DivUnique(k + j, d, k / d, k % d + j);
  }

  /** The cluster before sector k > 0: the same one, or the previous one if k starts a cluster. */
  lemma PreviousCluster(k: nat, d: nat)
    requires 0 < d && 0 < k
    ensures (k - 1) / d == if k % d == 0 then k / d - 1 else k / d
    ensures k % d == 0 ==> 1 <= k / d
  {
    var q := k / d;
    assert k == d * q + k % d;
    if k % d == 0 {
      if q < 1 {
        MulMono(q, 0, d);
      }
      OneMore(q - 1, d);
      DivUnique(k - 1, d, q - 1, d - 1);
    } else {
      DivUnique(k - 1, d, q, k % d - 1);
    }
  }

  // ---------------------------------------------------------------- contents

  /** The sectors ss of the disk l, with buf in place of sector dsect. */
  function Gather(l: seq<Sector>, ss: seq<nat>, dsect: nat, buf: Sector): (d: seq<Sector>)
    requires forall k :: 0 <= k < |ss| ==> ss[k] < |l|
    ensures |d| == |ss|
    ensures forall k :: 0 <= k < |ss| ==> d[k] == if ss[k] == dsect then buf else l[ss[k]]
  {
    seq(|ss|, k requires 0 <= k < |ss| => if ss[k] == dsect then buf else l[ss[k]])
  }

  function ByteAt(d: seq<Sector>, i: nat): u8
    requires i / SS < |d|
  {
    d[i / SS][i % SS]
  }

  /** The first n bytes. */
  function Flatten(d: seq<Sector>, n: nat): (b: seq<u8>)
    requires n <= |d| * SS
    ensures |b| == n
  {
    seq(n, i requires 0 <= i < n => ByteAt(d, i))
  }

  lemma FlattenAt(d: seq<Sector>, n: nat, i: nat)
    requires i < n <= |d| * SS
    ensures i / 512 < |d| && Flatten(d, n)[i] == d[i / 512][i % 512]
  {
  }

  /** s with the bytes w put in from position p on; it grows if they reach past its end. */
  function Spliced(s: seq<u8>, p: nat, w: seq<u8>): seq<u8>
    requires p <= |s|
  {
    s[..p] + w + (if p + |w| < |s| then s[p + |w|..] else [])
  }
}
