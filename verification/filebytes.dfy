/** Sectors of a file as bytes: slices read, pieces and runs written. */
module FileBytes {
  import opened Words
  import opened Volume
  import opened FileLayout

  lemma ByteSector(i: nat, n: nat)
    requires i < n * SS
    ensures i / SS < n && 0 <= i % SS < SS
  {
  }

  // ---------------------------------------------------------------- reading

  function ByteFrom(d: seq<Sector>, p: nat, i: nat): (b: u8)
    requires p + i < |d| * SS
    ensures (p + i) / SS < |d| && b == ByteAt(d, p + i)
  {
    ByteSector(p + i, |d|);
    ByteAt(d, p + i)
  }

  /** The n bytes from position p on. */
  function Slice(d: seq<Sector>, p: nat, n: nat): (b: seq<u8>)
    requires p + n <= |d| * SS
    ensures |b| == n
    ensures forall i :: 0 <= i < n ==> (p + i) / SS < |d| && b[i] == ByteAt(d, p + i)
  {
    seq(n, i requires 0 <= i < n => ByteFrom(d, p, i))
  }

  lemma SliceJoin(d: seq<Sector>, p: nat, n: nat, m: nat)
    requires p + n + m <= |d| * SS
    ensures Slice(d, p, n) + Slice(d, p + n, m) == Slice(d, p, n + m)
  {
  }

  lemma EmptySlice(d: seq<Sector>, p: nat)
    requires p <= |d| * SS
    ensures Slice(d, p, 0) == []
  {
  }

  /** Within one sector. */
  lemma SlicePiece(d: seq<Sector>, p: nat, m: nat)
    requires p % SS + m <= SS && p + m <= |d| * SS && p / SS < |d|
    ensures Slice(d, p, m) == d[p / SS][p % SS..p % SS + m]
  {
    forall i | 0 <= i < m
      ensures Slice(d, p, m)[i] == d[p / SS][p % SS + i]
    {
      DivUnique(p + i, SS, p / SS, p % SS + i);
    }
  }

  /** Whole sectors. */
  lemma SliceRun(d: seq<Sector>, k: nat, n: nat)
    requires k + n <= |d|
    ensures Slice(d, k * SS, n * SS) == Slice(d[k..k + n], 0, n * SS)
  {
    var e := d[k..k + n];
    forall i | 0 <= i < n * SS
      ensures Slice(d, k * SS, n * SS)[i] == Slice(e, 0, n * SS)[i]
    {
      ByteSector(i, n);
      DivUnique(k * SS + i, SS, k + i / SS, i % SS);
      assert Slice(e, 0, n * SS)[i] == ByteAt(e, i);
    }
  }

  lemma SliceOfFile(d: seq<Sector>, size: nat, p: nat, n: nat)
    requires size <= |d| * SS && p + n <= size
    ensures Slice(d, p, n) == Flatten(d, size)[p..p + n]
  {
  }

  // ---------------------------------------------------------------- writing

  /** A multiple of the sector size cut into sectors. */
  function Chunks(u: seq<u8>, n: nat): (c: seq<Sector>)
    requires |u| == n * SS
    ensures |c| == n
  {
    seq(n, j requires 0 <= j < n => u[j * SS..j * SS + SS])
  }

  lemma ChunkByte(u: seq<u8>, n: nat, i: nat)
    requires |u| == n * SS && i < |u|
    ensures i / SS < n && ByteAt(Chunks(u, n), i) == u[i]
  {
    ByteSector(i, n);
    assert i == i / SS * SS + i % SS;
  }

  /** Byte i of d0 after the bytes w are put in from position p on. */
  function Want(d0: seq<Sector>, p: nat, w: seq<u8>, i: nat): int {
    if p <= i < p + |w| then w[i - p] else if i / SS < |d0| then ByteAt(d0, i) else 0
  }

  ghost predicate ByteIs(d0: seq<Sector>, d: seq<Sector>, p: nat, w: seq<u8>, i: nat) {
    i / SS < |d| && ByteAt(d, i) == Want(d0, p, w, i)
  }

  /** d holds the first size bytes of d0 with w put in at p; its other bytes may be anything. */
  ghost predicate Patched(d0: seq<Sector>, d: seq<Sector>, size: nat, p: nat, w: seq<u8>) {
    && size <= |d0| * SS && p + |w| <= |d| * SS && |d0| <= |d|
    && forall i :: 0 <= i < size || p <= i < p + |w| ==> ByteIs(d0, d, p, w, i)
  }

  lemma PatchNothing(d: seq<Sector>, size: nat, p: nat)
    requires size <= |d| * SS && p <= |d| * SS
    ensures Patched(d, d, size, p, [])
  {
    forall i | 0 <= i < size || p <= i < p + 0
      ensures ByteIs(d, d, p, [], i)
    {
      ByteSector(i, |d|);
    }
  }

  lemma PatchGrown(d0: seq<Sector>, d: seq<Sector>, d': seq<Sector>, size: nat, p: nat, w: seq<u8>)
    requires Patched(d0, d, size, p, w) && |d| <= |d'| && d'[..|d|] == d
    ensures Patched(d0, d', size, p, w)
  {
    forall i | 0 <= i < size || p <= i < p + |w|
      ensures ByteIs(d0, d', p, w, i)
    {
      assert ByteIs(d0, d, p, w, i);
      assert d'[i / SS] == d[i / SS];
    }
  }

  /** Whole sectors written at the end of what is written so far. */
  lemma PatchRun(d0: seq<Sector>, d: seq<Sector>, size: nat, p: nat, w: seq<u8>, k: nat, n: nat, u: seq<u8>)
    requires Patched(d0, d, size, p, w) && p + |w| == k * SS && k + n <= |d| && |u| == n * SS
    ensures Patched(d0, d[..k] + Chunks(u, n) + d[k + n..], size, p, w + u)
  {
    var d' := d[..k] + Chunks(u, n) + d[k + n..];
    forall i | 0 <= i < size || p <= i < p + |w + u|
      ensures ByteIs(d0, d', p, w + u, i)
    {
      RunByte(d, k, n, u, i);
      if !(k * SS <= i < (k + n) * SS) {
        assert ByteIs(d0, d, p, w, i);
      }
    }
  }

  lemma RunByte(d: seq<Sector>, k: nat, n: nat, u: seq<u8>, i: nat)
    requires k + n <= |d| && |u| == n * SS
    ensures
      var d' := d[..k] + Chunks(u, n) + d[k + n..];
      if k * SS <= i < (k + n) * SS then i / SS < |d'| && ByteAt(d', i) == u[i - k * SS]
      else i / SS < |d| ==> i / SS < |d'| && ByteAt(d', i) == ByteAt(d, i)
  {
    var d' := d[..k] + Chunks(u, n) + d[k + n..];
    if k * SS <= i < (k + n) * SS {
      var j := i - k * SS;
      ChunkByte(u, n, j);
      DivUnique(i, SS, k + j / SS, j % SS);
      assert d'[k + j / SS] == Chunks(u, n)[j / SS];
    } else if i / SS < |d| {
      OutsideSectors(i, k, n);
      assert d'[i / SS] == d[i / SS];
    }
  }

  lemma OutsideSectors(i: nat, k: nat, n: nat)
    requires !(k * SS <= i < (k + n) * SS)
    ensures i / SS < k || k + n <= i / SS
  {
  }

  /** A piece u put into sector k of the file, the rest of the sector b being kept, or new if nothing there counts yet. */
  lemma PatchPiece(d0: seq<Sector>, d: seq<Sector>, size: nat, p: nat, w: seq<u8>, b: Sector, u: seq<u8>)
    requires Patched(d0, d, size, p, w) && p <= size
    requires var q := p + |w|; q / SS < |d| && q % SS + |u| <= SS && b[q % SS..q % SS + |u|] == u
    requires var q := p + |w|; (forall j :: 0 <= j < SS && !(q % SS <= j < q % SS + |u|) ==> b[j] == d[q / SS][j]) || (q % SS == 0 && size <= q)
    ensures Patched(d0, d[(p + |w|) / SS := b], size, p, w + u)
  {
    var q, d' := p + |w|, d[(p + |w|) / SS := b];
    PieceEnd(q, |u|, |d|);
    forall i | 0 <= i < size || p <= i < p + |w + u|
      ensures ByteIs(d0, d', p, w + u, i)
    {
      if q <= i < q + |u| {
        DivUnique(i, SS, q / SS, q % SS + (i - q));
        assert b[q % SS + (i - q)] == b[q % SS..q % SS + |u|][i - q];
      } else {
        assert ByteIs(d0, d, p, w, i);
        if i / SS == q / SS {
          assert i == q / SS * SS + i % SS && q == q / SS * SS + q % SS;
        }
      }
    }
  }

  /** A piece u put into the buffer, which held that sector, or anything if nothing of the sector counts yet. */
  lemma PatchBuffer(d0: seq<Sector>, d: seq<Sector>, size: nat, p: nat, w: seq<u8>, was: Sector, u: seq<u8>, q: nat, b: Sector)
    requires Patched(d0, d, size, p, w) && p <= size && q == p + |w| && q / SS < |d| && q % SS + |u| <= SS
    requires b == was[..q % SS] + u + was[q % SS + |u|..]
    requires was == d[q / SS] || (q % SS == 0 && size <= q)
    ensures Patched(d0, d[q / SS := b], size, p, w + u)
  {
    hide Patched;
    PatchPiece(d0, d, size, p, w, b, u);
  }

  lemma PieceEnd(q: nat, m: nat, n: nat)
    requires q / SS < n && q % SS + m <= SS
    ensures q + m <= n * SS
  {
    assert q == q / SS * SS + q % SS;
  }

  /** The patched sectors read as the spliced bytes. */
  lemma PatchedBytes(d0: seq<Sector>, d: seq<Sector>, size: nat, p: nat, w: seq<u8>)
    requires Patched(d0, d, size, p, w) && p <= size
    ensures
      var size' := if size < p + |w| then p + |w| else size;
      size' <= |d| * SS && Flatten(d, size') == Spliced(Flatten(d0, size), p, w)
  {
    var size' := if size < p + |w| then p + |w| else size;
    assert size' <= |d| * SS;
    forall i | 0 <= i < size'
      ensures Flatten(d, size')[i] == Spliced(Flatten(d0, size), p, w)[i]
    {
      assert ByteIs(d0, d, p, w, i);
      ByteSector(i, |d|);
    }
  }
}
