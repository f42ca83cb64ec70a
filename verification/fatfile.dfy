/** f_read, f_write and f_lseek on an open file with a private sector buffer (_FS_TINY 0). */
module FatFile {
  import opened Words
  import opened Volume
  import opened FatTable
  import opened FatChain
  import opened FileLayout
  import opened FileView
  import opened FileBytes
  import opened FileCursor
  import opened FileSeek

  class Fil {
    const fs: Fatfs
    const canRead: bool
    const canWrite: bool
    var dirty: bool       // FA__DIRTY
    var written: bool     // FA__WRITTEN
    var err: FResult
    var fptr: u32
    var fsize: u32
    var sclust: u32
    var clust: u32
    var dsect: u32
    var buf: Sector
    ghost var chain: seq<nat>

    ghost function V(): View
      requires fs.Valid()
      reads this, fs
    {
      View(fs.geo, fs.Logical(), fs.winsect, chain, sclust, fsize, dsect, dirty, buf)
    }

    ghost predicate OnDisk()
      reads this, fs
    {
      fs.Valid() && V().Ok()
    }

    ghost function Places(): seq<nat>
      requires OnDisk()
      reads this, fs
    {
      V().Places()
    }

    ghost function Data(): seq<Sector>
      requires OnDisk()
      reads this, fs
    {
      V().Data()
    }

    ghost predicate Cursor()
      requires OnDisk()
      reads this, fs
    {
      fptr <= fsize && CursorAt(fs.geo.csize, chain, Places(), dsect, fptr, clust)
    }

    /** What holds between calls; after an error the file object is dead and only the volume is still in order. */
    ghost predicate Valid()
      reads this, fs
    {
      fs.Valid() && (err == Ok ==> OnDisk() && Cursor())
    }

    /** The bytes of the file. */
    ghost function Contents(): (b: seq<u8>)
      requires OnDisk()
      reads this, fs
      ensures |b| == fsize
    {
      Flatten(Data(), fsize)
    }

    /** Byte i of a file whose buffer is written back, where the disk has it. */
    lemma ByteOnDisk(i: nat)
      requires Valid() && err == Ok && !dirty && i < fsize
      ensures
        var s := ChainSector(fs.geo, chain, i / 512);
        0 <= s < |fs.Logical()| && Contents()[i] == fs.Logical()[s][i % 512]
    {
      hide Fatfs.Logical, Sectors, ChainSector, Fat, View.Placed, View.Data, CursorAt, Flatten;
      ContentsOf();
      CapacityOf(V());
      FlattenAt(Data(), fsize, i);
      CleanSector(V(), i / 512);
    }

    /** As f_open leaves it, for the chain its directory entry points to. */
    constructor (fs: Fatfs, canRead: bool, canWrite: bool, sclust: u32, fsize: u32, ghost chain: seq<nat>)
      requires fs.Valid() && InRange(fs.geo, chain) && Whole(Fat(fs.geo, fs.Logical()), chain, sclust)
      requires fsize <= |Sectors(fs.geo, chain)| * SS && NoneIs(Sectors(fs.geo, chain), fs.winsect)
      ensures this.fs == fs && this.canRead == canRead && this.canWrite == canWrite && this.chain == chain
      ensures this.fsize == fsize && fptr == 0 && err == Ok && Valid()
    {
      this.fs, this.canRead, this.canWrite, this.sclust, this.fsize, this.chain := fs, canRead, canWrite, sclust, fsize, chain;
      dirty, written, err, fptr, clust, dsect, buf := false, false, Ok, 0, 0, 0, seq(SS, _ => 0);
      new;
      hide Fat, Sectors, View.Ok, CursorAt;
      FreshView(V());
      FreshCursor(fs.geo.csize, chain, Places(), dsect, clust);
    }

    // ---------------------------------------------------------------- the sector buffer

    method FlushBuf() returns (res: FResult)
      requires OnDisk()
      modifies this`dirty, fs`disk, fs`faults
      ensures fs.Valid() && res in {Ok, DiskErr}
      ensures OthersKept(fs.geo, old(fs.Logical()), fs.Logical(), old(Places()))
      ensures res == Ok ==> OnDisk() && !dirty && Data() == old(Data())
      ensures Fat(fs.geo, fs.Logical()) == old(Fat(fs.geo, fs.Logical()))
      ensures old(fs.Healthy()) ==> fs.Healthy() && res == Ok
      ensures old(fs.CopiesAgree()) ==> fs.CopiesAgree()
    {
      hide View.Placed, View.Data, Fatfs.Healthy, Fatfs.CopiesAgree, OthersKept, Fat;
      res := Ok;
      ghost var v := V();
      OthersSelf(v.g, v.l, Places());
      if dirty {
        Flushed(v, v.l);
        var ok := fs.DataWrite(dsect, [buf]);
        Flushed(v, fs.Logical());
        if !ok {
          return DiskErr;
        }
        dirty := false;
      }
    }

    /** Makes the buffer hold sector k of the file, writing back what it held. */
    method LoadBuf(sect: u32, ghost k: nat) returns (res: FResult)
      requires OnDisk() && k < |Places()| && sect == Places()[k]
      modifies this`dirty, this`buf, this`dsect, fs`disk, fs`faults
      ensures fs.Valid() && res in {Ok, DiskErr}
      ensures OthersKept(fs.geo, old(fs.Logical()), fs.Logical(), old(Places()))
      ensures res == Ok ==> OnDisk() && dsect == sect && Data() == old(Data())
      ensures Fat(fs.geo, fs.Logical()) == old(Fat(fs.geo, fs.Logical()))
      ensures old(fs.Healthy()) ==> fs.Healthy() && res == Ok
      ensures old(fs.CopiesAgree()) ==> fs.CopiesAgree()
    {
      hide View.Placed, View.Data, Fatfs.Healthy, Fatfs.CopiesAgree, OthersKept, Fat;
      res := Ok;
      ghost var v := V();
      OthersSelf(v.g, v.l, Places());
      if dsect != sect {
        res := FlushBuf();
        if res != Ok { return; }
        Loaded(V(), k);
        var ok, data := fs.DataRead(sect, 1);
        if !ok {
          return DiskErr;
        }
        assert data[0] == fs.Logical()[sect];
        buf := data[0];
        dsect := sect;
      }
    }

    /** Reads whole sectors from k on straight from the disk; a dirty buffer replaces its sector. */
    method DirectRead(sect: u32, cc: nat, ghost k: nat) returns (ok: bool, data: seq<Sector>)
      requires OnDisk() && 0 < cc && Consecutive(Places(), k, sect, cc)
      modifies fs`faults
      ensures |data| == cc && (ok ==> data == Data()[k..k + cc])
      ensures old(fs.Healthy()) ==> fs.Healthy() && ok
    {
      hide View.Placed, View.Data, Fatfs.Healthy;
      ghost var v := V();
      RunPlace(v, k, sect, cc);
      ok, data := fs.DataRead(sect, cc);
      if ok {
        InRun(dsect, sect, cc);
        ReadRun(v, k, sect, cc);
        if dirty && (dsect - sect) % TWO32 < cc {
          data := data[dsect - sect := buf];
        }
      }
    }

    /** Writes whole sectors from k on straight to the disk; a clean buffer inside them is refreshed. */
    method DirectWrite(sect: u32, src: seq<Sector>, ghost k: nat) returns (ok: bool)
      requires OnDisk() && !dirty && 0 < |src| && Consecutive(Places(), k, sect, |src|)
      modifies this`dirty, this`buf, fs`disk, fs`faults
      ensures fs.Valid() && OthersKept(fs.geo, old(fs.Logical()), fs.Logical(), old(Places()))
      ensures ok ==> OnDisk() && !dirty && Data() == old(Data())[..k] + src + old(Data())[k + |src|..]
      ensures old(fs.Healthy()) ==> fs.Healthy() && ok
      ensures old(fs.CopiesAgree()) ==> fs.CopiesAgree()
      ensures Fat(fs.geo, fs.Logical()) == old(Fat(fs.geo, fs.Logical()))
    {
      hide View.Placed, View.Data, Fatfs.Healthy, Fatfs.CopiesAgree, OthersKept, Sectors, Fatfs.Logical, Fat;
      ghost var v := V();
      RunPlace(v, k, sect, |src|);
      ok := fs.DataWrite(sect, src);
      WroteRun(v, fs.Logical(), src, k, sect);
      if ok {
        InRun(dsect, sect, |src|);
        if (dsect - sect) % TWO32 < |src| {
          buf := src[dsect - sect];
          dirty := false;
        }
      }
    }

    /** Puts bytes into the buffer, which stands for sector k from now on. */
    method PutBuf(sect: u32, off: nat, u: seq<u8>, ghost k: nat) returns (ghost b: Sector)
      requires OnDisk() && k < |Places()| && sect == Places()[k] && (dsect == sect || !dirty) && off + |u| <= SS
      modifies this`dirty, this`buf, this`dsect
      ensures OnDisk() && dsect == sect && Data() == old(Data())[k := b]
      ensures b == old(buf)[..off] + u + old(buf)[off + |u|..]
    {
      hide View.Placed, View.Data;
      b := buf[..off] + u + buf[off + |u|..];
      PutInBuffer(V(), k, b);
      dsect := sect;
      buf := buf[..off] + u + buf[off + |u|..];
      dirty := true;
    }

    // ---------------------------------------------------------------- the current sector

    /** The cursor is in sector fptr / SS of the file, and that sector is in the current cluster. */
    ghost predicate InCluster()
      requires OnDisk()
      reads this, fs
    {
      && fptr / SS < |Places()|
      && ClusterNo(fs.geo.csize, fptr / SS) < |chain| && clust == chain[ClusterNo(fs.geo.csize, fptr / SS)]
    }

    method SectorNumber() returns (res: FResult, sect: u32)
      requires OnDisk() && InCluster()
      ensures res == Ok && sect == Places()[fptr / SS]
    {
      hide View.Placed, View.Data, Fatfs.Logical, Sectors, IsChain, Fat, ClusterNo;
      ViewChain(V());
      SectorPlace(fs.geo, chain, Places(), fptr / SS);
      SectorInside(V(), fptr / SS);
      res, sect := Ok, Clust2Sect(fs.geo, clust);
      if sect == 0 {
        res := IntErr;
        return;
      }
      sect := sect + fptr / SS % fs.geo.csize;
    }

    // ---------------------------------------------------------------- f_read

    /** On a cluster boundary below the end of the file: the next cluster of the chain. */
    method FollowChain() returns (res: FResult)
      requires OnDisk() && Cursor() && fptr % SS == 0 && fptr / SS % fs.geo.csize == 0 && fptr / SS < |Places()|
      modifies this`clust, fs`disk, fs`winsect, fs`win, fs`wflag, fs`faults
      ensures fs.Valid() && res in {Ok, DiskErr} && fs.Logical() == old(fs.Logical())
      ensures OnDisk() && Data() == old(Data())
      ensures res == Ok ==>
                ClusterNo(fs.geo.csize, fptr / SS) < |chain| && clust == chain[ClusterNo(fs.geo.csize, fptr / SS)]
      ensures old(fs.Healthy()) ==> fs.Healthy() && res == Ok
      ensures old(fs.Healthy()) && old(fs.CopiesAgree()) ==> fs.CopiesAgree()
    {
      hide View.Placed, View.Data, Fatfs.Healthy, Fatfs.CopiesAgree, Fatfs.Logical, Sectors, IsChain, Laid, Fat, ClusterNo, CursorAt;
      ghost var v := V();
      ViewChain(v);
      RoomFor(v.g, chain, Places(), fptr / SS);
      var clst: u32;
      if fptr == 0 {
        clst := sclust;
        FirstCluster(v.g.csize);
      } else {
        NextLink(v.g.csize, Fat(v.g, v.l), chain, Places(), dsect, fptr, clust);
        clst := GetFat(fs, clust);
        WindowMoved(v, fs.winsect);
      }
      if clst < 2 {
        return IntErr;
      }
      if clst == NOSECT {
        return DiskErr;
      }
      clust := clst;
      res := Ok;
    }

    /** At a sector boundary of f_read's loop: the current cluster, and the sector in it. */
    method EnterSector() returns (res: FResult, sect: u32)
      requires OnDisk() && Cursor() && fptr % SS == 0 && fptr / SS < |Places()|
      modifies this`clust, fs`disk, fs`winsect, fs`win, fs`wflag, fs`faults
      ensures fs.Valid() && res in {Ok, DiskErr} && fs.Logical() == old(fs.Logical())
      ensures OnDisk() && Data() == old(Data())
      ensures res == Ok ==> InCluster() && sect == Places()[fptr / SS]
      ensures old(fs.Healthy()) ==> fs.Healthy() && res == Ok
      ensures old(fs.Healthy()) && old(fs.CopiesAgree()) ==> fs.CopiesAgree()
    {
      hide View.Placed, View.Data, Fatfs.Healthy, Fatfs.CopiesAgree, Fatfs.Logical, Sectors, IsChain, Laid, Fat, ClusterNo, CursorAt;
      res, sect := Ok, 0;
      ViewChain(V());
      if fptr / SS % fs.geo.csize == 0 {
        res := FollowChain();
        if res != Ok { return; }
      } else {
        SameLink(fs.geo.csize, chain, Places(), dsect, fptr, clust);
      }
      res, sect := SectorNumber();
    }

    /** One turn of f_read's loop: part of a sector through the buffer, or whole sectors of one cluster. */
    method ReadPiece(btr: u32) returns (res: FResult, bytes: seq<u8>)
      requires err == Ok && Valid() && 0 < btr && fptr + btr <= fsize
      modifies this`err, this`fptr, this`clust, this`dirty, this`buf, this`dsect
      modifies fs`disk, fs`winsect, fs`win, fs`wflag, fs`faults
      ensures fs.Valid() && res in {Ok, DiskErr} && err == res
      ensures OthersKept(fs.geo, old(fs.Logical()), fs.Logical(), old(Places()))
      ensures res == Ok ==> Valid() && 0 < |bytes| <= btr && fptr == old(fptr) + |bytes|
      ensures res == Ok ==> Data() == old(Data()) && Places() == old(Places())
      ensures res == Ok ==> old(fptr) + |bytes| <= |old(Data())| * SS && bytes == Slice(old(Data()), old(fptr), |bytes|)
      ensures old(fs.Healthy()) ==> fs.Healthy() && res == Ok
      ensures old(fs.Healthy()) && old(fs.CopiesAgree()) ==> fs.CopiesAgree()
      ensures Fat(fs.geo, fs.Logical()) == old(Fat(fs.geo, fs.Logical()))
    {
      hide View.Placed, View.Data, Fatfs.Healthy, Fatfs.CopiesAgree, Fatfs.Logical, Sectors, ClusterNo, CursorAt, OthersKept, Slice;
      res, bytes := Ok, [];
      ghost var k := fptr / SS;
      OthersSelf(fs.geo, fs.Logical(), Places());
      CapacityOf(V());
      SectorBefore(fptr, btr, |Places()|);
      if fptr % SS == 0 {
        var sect;
        res, sect := EnterSector();
        if res == Ok {
          var csect := fptr / SS % fs.geo.csize;
          var cc := btr / SS;
          if cc != 0 {
            if csect + cc > fs.geo.csize {
              cc := fs.geo.csize - csect;
            }
            res, bytes := ReadSectors(sect, cc, k);
            return;
          }
          res := LoadBuf(sect, k);
        }
        if res != Ok {
          err := res;
          return;
        }
      } else {
        SameLink(fs.geo.csize, chain, Places(), dsect, fptr, clust);
        InSector(fs.geo.csize, chain, Places(), dsect, fptr, clust);
      }
      bytes := CopyOut(btr, k);
    }

    /** The rest of the sector, or as much as was asked for, from the buffer. */
    method CopyOut(btr: u32, ghost k: nat) returns (bytes: seq<u8>)
      requires OnDisk() && InCluster() && k == fptr / SS && dsect == Places()[k] && 0 < btr && fptr + btr <= fsize
      modifies this`fptr
      ensures OnDisk() && Cursor() && Data() == old(Data()) && Places() == old(Places())
      ensures 0 < |bytes| <= btr && fptr == old(fptr) + |bytes|
      ensures old(fptr) + |bytes| <= |old(Data())| * SS && bytes == Slice(old(Data()), old(fptr), |bytes|)
    {
      hide View.Placed, View.Data, Fatfs.Logical, Sectors, ClusterNo, CursorAt, Slice;
      var rcnt := SS - fptr % SS;
      if rcnt > btr {
        rcnt := btr;
      }
      bytes := buf[fptr % SS..fptr % SS + rcnt];
      BufferPiece(V(), k, fptr, rcnt);
      PieceEnds(fptr, rcnt);
      CursorMoved(fs.geo.csize, chain, Places(), dsect, fptr + rcnt, clust, k);
      fptr := fptr + rcnt;
    }

    /** The direct transfer. */
    method ReadSectors(sect: u32, cc: nat, ghost k: nat) returns (res: FResult, bytes: seq<u8>)
      requires err == Ok && OnDisk() && InCluster() && fptr == k * SS && sect == Places()[k] && fptr + cc * SS <= fsize
      requires 0 < cc && k % fs.geo.csize + cc <= fs.geo.csize
      modifies this`err, this`fptr, fs`faults
      ensures fs.Valid() && res in {Ok, DiskErr} && err == res && fs.Logical() == old(fs.Logical()) && OnDisk()
      ensures Data() == old(Data()) && Places() == old(Places())
      ensures res == Ok ==> Cursor() && |bytes| == cc * SS && fptr == old(fptr) + |bytes|
      ensures res == Ok ==> old(fptr) + |bytes| <= |old(Data())| * SS && bytes == Slice(old(Data()), old(fptr), |bytes|)
      ensures old(fs.Healthy()) ==> fs.Healthy() && res == Ok
    {
      hide View.Placed, View.Data, Fatfs.Healthy, Fatfs.Logical, Sectors, IsChain, Laid, Fat, CursorAt, Slice;
      res, bytes := Ok, [];
      ghost var v := V();
      ViewChain(v);
      RestOfCluster(v.g, chain, Places(), k, cc);
      var ok, data := DirectRead(sect, cc, k);
      if !ok {
        res, err := DiskErr, DiskErr;
        return;
      }
      SliceRun(Data(), k, cc);
      bytes := Slice(data, 0, cc * SS);
      EndOfRun(v.g.csize, chain, Places(), dsect, k, cc, clust);
      fptr := fptr + cc * SS;
    }

    /** f_read: as many of the btr bytes from the cursor on as the file has. */
    method Read(btr: u32) returns (res: FResult, out: seq<u8>)
      requires Valid()
      modifies this`err, this`fptr, this`clust, this`dirty, this`buf, this`dsect
      modifies fs`disk, fs`winsect, fs`win, fs`wflag, fs`faults
      ensures Valid() && (old(err) == Ok && canRead ==> err == res) && (res == Ok ==> err == Ok)
      ensures old(err) != Ok || !canRead ==> out == [] && res == (if old(err) != Ok then old(err) else Denied)
      ensures old(err) == Ok && !canRead ==> err == Ok && fptr == old(fptr) && Contents() == old(Contents())
      ensures res in {Ok, Denied, old(err), DiskErr} && (old(err) == Ok && canRead ==> res != Denied)
      ensures res == Ok ==> Contents() == old(Contents())
      ensures res == Ok ==>
                && fptr == (if old(fptr) + btr < fsize then old(fptr) + btr else fsize)
                && out == Contents()[old(fptr)..fptr]
      ensures old(err) == Ok ==> OthersKept(fs.geo, old(fs.Logical()), fs.Logical(), old(Places()))
      ensures old(fs.Healthy()) ==> fs.Healthy() && (old(err) == Ok && canRead ==> res == Ok)
      ensures old(fs.Healthy()) && old(fs.CopiesAgree()) ==> fs.CopiesAgree()
      ensures Fat(fs.geo, fs.Logical()) == old(Fat(fs.geo, fs.Logical()))
    {
      hide View.Placed, View.Data, Fatfs.Healthy, Fatfs.CopiesAgree, Fatfs.Logical, Sectors, CursorAt, OthersKept, Slice, Flatten;
      res, out := Ok, [];
      if err != Ok {
        return err, [];
      }
      OthersSelf(fs.geo, fs.Logical(), Places());
      if !canRead {
        return Denied, [];
      }
      ghost var p, d, ss, l := fptr, Data(), Places(), fs.Logical();
      CapacityOf(V());
      var left: u32 := btr;
      var remain := fsize - fptr;
      if left > remain {
        left := remain;
      }
      ghost var n := left;
      EmptySlice(d, p);
      while left != 0
        invariant err == Ok && res == Ok && Valid() && Data() == d && Places() == ss
        invariant |out| + left == n && fptr == p + |out| && p + n <= fsize <= |d| * SS
        invariant out == Slice(d, p, |out|) && OthersKept(fs.geo, l, fs.Logical(), ss)
        invariant old(fs.Healthy()) ==> fs.Healthy()
        invariant old(fs.Healthy()) && old(fs.CopiesAgree()) ==> fs.CopiesAgree()
        invariant Fat(fs.geo, fs.Logical()) == old(Fat(fs.geo, fs.Logical()))
        decreases left
      {
        ghost var l1 := fs.Logical();
        var bytes;
        res, bytes := ReadPiece(left);
        OthersTrans(fs.geo, l, l1, fs.Logical(), ss, ss);
        if res != Ok { return; }
        SliceJoin(d, p, |out|, |bytes|);
        out := out + bytes;
        left := left - |bytes|;
      }
      SliceOfFile(d, fsize, p, n);
    }

    // ---------------------------------------------------------------- f_write

    /** The cursor may have passed the recorded size while writing, but not the end of the chain. */
    ghost predicate Writing()
      reads this, fs
    {
      OnDisk() && fptr <= |Places()| * SS && CursorAt(fs.geo.csize, chain, Places(), dsect, fptr, clust)
    }

    /**
     create_chain for the cluster after prev, the i-th of the chain, or for a first one: 0 if the disk is full.
     A file without a chain takes the cluster as its start.
     */
    method Stretch(prev: u32, ghost i: nat) returns (res: FResult, clst: u32)
      requires OnDisk() && i <= |chain| && (if i == 0 then prev == 0 && chain == [] else prev == chain[i - 1])
      modifies this`sclust, this`chain
      modifies fs`disk, fs`winsect, fs`win, fs`wflag, fs`faults, fs`freeClust, fs`lastClust, fs`fsiFlag
      ensures fs.Valid() && res in {Ok, DiskErr, IntErr} && OthersKept(fs.geo, old(fs.Logical()), fs.Logical(), old(Places()))
      ensures res == Ok ==> OnDisk() && old(chain) <= chain && old(Places()) <= Places() && Data()[..|old(Data())|] == old(Data())
      ensures res == Ok && clst == 0 ==> V() == old(V()).(window := fs.winsect) && i == |chain| && Full(Fat(fs.geo, fs.Logical()))
      ensures res == Ok && clst != 0 ==> i < |chain| && clst == chain[i]
      ensures res != Ok ==> chain == old(chain)
      ensures old(fs.Healthy()) ==> fs.Healthy() && res != DiskErr
      ensures old(fs.Healthy()) && old(fs.CopiesAgree()) ==> fs.CopiesAgree()
      ensures res != DiskErr && old(Sane(fs)) ==> Sane(fs) && res == Ok
    {
      hide View.Placed, View.Data, Fatfs.Healthy, Fatfs.CopiesAgree, Fatfs.Logical, Sectors, IsChain, Laid, Fat;
      hide Full, NoneFree, Linked, SameData, OthersKept;
      ghost var v, l, ss := V(), fs.Logical(), Places();
      res := Ok;
      ViewChain(v);
      if i > 0 {
        LinkOf(v, i);
      }
      clst := CreateChain(fs, prev);
      TableOthers(v, fs.Logical(), i, prev);
      if clst == 0 {
        WindowMoved(v, fs.winsect);
        return;
      }
      if clst == 1 {
        res := IntErr;
        return;
      }
      if clst == NOSECT {
        res := DiskErr;
        return;
      }
      if i == |chain| {
        LinkedSane(v.g, Fat(v.g, v.l), Fat(v.g, fs.Logical()), prev, clst);
        Grown(v, fs.Logical(), fs.winsect, clst);
        chain := chain + [clst];
      } else {
        WindowMoved(v, fs.winsect);
      }
      if sclust == 0 {
        sclust := clst;
      }
    }

    /** On a cluster boundary: the next cluster of the chain, allocated if there is none; full if none is left. */
    method AdvanceChain() returns (res: FResult, full: bool)
      requires Writing() && fptr % SS == 0 && fptr / SS % fs.geo.csize == 0
      modifies this`clust, this`sclust, this`chain
      modifies fs`disk, fs`winsect, fs`win, fs`wflag, fs`faults, fs`freeClust, fs`lastClust, fs`fsiFlag
      ensures fs.Valid() && res in {Ok, DiskErr, IntErr} && (res != Ok ==> !full)
      ensures OthersKept(fs.geo, old(fs.Logical()), fs.Logical(), old(Places()))
      ensures res == Ok ==> OnDisk() && old(Places()) <= Places() && Data()[..|old(Data())|] == old(Data())
      ensures res == Ok && full ==> Writing() && Places() == old(Places()) && fsize <= fptr && Full(Fat(fs.geo, fs.Logical()))
      ensures res == Ok && !full ==> InCluster()
      ensures res != Ok ==> chain == old(chain)
      ensures old(fs.Healthy()) ==> fs.Healthy() && res != DiskErr
      ensures old(fs.Healthy()) && old(fs.CopiesAgree()) ==> fs.CopiesAgree()
      ensures res != DiskErr && old(Sane(fs)) ==> Sane(fs) && res == Ok
    {
      hide View.Placed, View.Data, Fatfs.Healthy, Fatfs.CopiesAgree, Fatfs.Logical, Sectors, IsChain, Laid, Fat, ClusterNo, CursorAt;
      hide Full, Damaged, OthersKept;
      ghost var i := ClusterNo(fs.geo.csize, fptr / SS);
      res, full := Ok, false;
      OthersSelf(fs.geo, fs.Logical(), Places());
      ViewChain(V());
      FirstCluster(fs.geo.csize);
      RoomFor(fs.geo, chain, Places(), fptr / SS);
      var clst: u32;
      if fptr == 0 && sclust != 0 {
        clst := sclust;
      } else {
        if fptr != 0 {
          NextLink(fs.geo.csize, Fat(fs.geo, fs.Logical()), chain, Places(), dsect, fptr, clust);
        }
        res, clst := Stretch(if fptr == 0 then 0 else clust, i);
        if res != Ok { return; }
        if clst == 0 {
          full := true;
          return;
        }
        ViewChain(V());
        RoomFor(fs.geo, chain, Places(), fptr / SS);
      }
      clust := clst;
    }

    /** The cluster of the sector the cursor is at the start of. */
    method SelectCluster() returns (res: FResult, full: bool)
      requires Writing() && fptr % SS == 0
      modifies this`clust, this`sclust, this`chain
      modifies fs`disk, fs`winsect, fs`win, fs`wflag, fs`faults, fs`freeClust, fs`lastClust, fs`fsiFlag
      ensures fs.Valid() && res in {Ok, DiskErr, IntErr} && (res != Ok ==> !full) && InRange(fs.geo, chain)
      ensures OthersKept(fs.geo, old(fs.Logical()), fs.Logical(), old(Places()))
      ensures res == Ok ==> OnDisk() && old(Places()) <= Places() && Data()[..|old(Data())|] == old(Data())
      ensures res == Ok && full ==> Writing() && Places() == old(Places()) && fsize <= fptr && Full(Fat(fs.geo, fs.Logical()))
      ensures res == Ok && !full ==> InCluster()
      ensures res != Ok ==> chain == old(chain)
      ensures old(fs.Healthy()) ==> fs.Healthy() && res != DiskErr
      ensures old(fs.Healthy()) && old(fs.CopiesAgree()) ==> fs.CopiesAgree()
      ensures res != DiskErr && old(Sane(fs)) ==> Sane(fs) && res == Ok
    {
      hide View.Placed, View.Data, Fatfs.Healthy, Fatfs.CopiesAgree, Fatfs.Logical, Sectors, IsChain, Laid, Fat, ClusterNo, CursorAt;
      hide Full, Damaged, OthersKept;
      res, full := Ok, false;
      ViewChain(V());
      if fptr / SS % fs.geo.csize == 0 {
        res, full := AdvanceChain();
        if res == Ok {
          ViewChain(V());
        }
      } else {
        OthersSelf(fs.geo, fs.Logical(), Places());
        SameLink(fs.geo.csize, chain, Places(), dsect, fptr, clust);
        RoomFor(fs.geo, chain, Places(), fptr / SS);
      }
    }

    /** At a sector boundary of f_write's loop: cluster, buffer written back, and the sector. */
    method EnterForWrite() returns (res: FResult, full: bool, sect: u32)
      requires Writing() && fptr % SS == 0
      modifies this`clust, this`sclust, this`chain, this`dirty
      modifies fs`disk, fs`winsect, fs`win, fs`wflag, fs`faults, fs`freeClust, fs`lastClust, fs`fsiFlag
      ensures fs.Valid() && res in {Ok, DiskErr, IntErr} && (res != Ok ==> !full) && InRange(fs.geo, chain)
      ensures OthersKept(fs.geo, old(fs.Logical()), fs.Logical(), Sectors(fs.geo, chain)) && old(Places()) <= Sectors(fs.geo, chain)
      ensures res == Ok ==> OnDisk() && Data()[..|old(Data())|] == old(Data())
      ensures res == Ok && full ==> Writing() && Places() == old(Places()) && fsize <= fptr && Full(Fat(fs.geo, fs.Logical()))
      ensures res == Ok && !full ==> !dirty && InCluster() && sect == Places()[fptr / SS]
      ensures old(fs.Healthy()) ==> fs.Healthy() && res != DiskErr
      ensures old(fs.Healthy()) && old(fs.CopiesAgree()) ==> fs.CopiesAgree()
      ensures res != DiskErr && old(Sane(fs)) ==> Sane(fs) && res == Ok
    {
      hide View.Placed, View.Data, Fatfs.Healthy, Fatfs.CopiesAgree, Fatfs.Logical, Sectors, IsChain, Laid, Fat, ClusterNo, CursorAt;
      hide Full, Damaged, OthersKept;
      ghost var l, ss := fs.Logical(), Places();
      sect := 0;
      res, full := SelectCluster();
      if res != Ok || full { return; }
      ghost var l1, ss1 := fs.Logical(), Places();
      res := FlushBuf();
      OthersTrans(fs.geo, l, l1, fs.Logical(), ss, ss1);
      if res != Ok { return; }
      res, sect := SectorNumber();
    }

    /** The direct transfer of whole sectors. */
    method WriteSectors(sect: u32, u: seq<u8>, cc: nat, ghost d0: seq<Sector>, ghost p: nat, ghost w: seq<u8>) returns (ok: bool)
      requires OnDisk() && !dirty && InCluster() && fptr % SS == 0 && sect == Places()[fptr / SS]
      requires 0 < cc && |u| == cc * SS && fptr / SS % fs.geo.csize + cc <= fs.geo.csize && fptr + |u| < TWO32
      requires Patched(d0, Data(), fsize, p, w) && fptr == p + |w|
      modifies this`fptr, this`dirty, this`buf, fs`disk, fs`faults
      ensures fs.Valid() && OthersKept(fs.geo, old(fs.Logical()), fs.Logical(), old(Places()))
      ensures ok ==> Writing() && Places() == old(Places()) && fptr == old(fptr) + |u| && Patched(d0, Data(), fsize, p, w + u)
      ensures old(fs.Healthy()) ==> fs.Healthy() && ok
      ensures old(fs.CopiesAgree()) ==> fs.CopiesAgree()
      ensures Fat(fs.geo, fs.Logical()) == old(Fat(fs.geo, fs.Logical()))
    {
      hide View.Placed, View.Data, Fatfs.Healthy, Fatfs.CopiesAgree, Fatfs.Logical, Sectors, IsChain, Fat, ClusterNo, CursorAt;
      hide OthersKept, Patched, Chunks;
      ghost var k, d := fptr / SS, Data();
      ViewChain(V());
      RestOfCluster(fs.geo, chain, Places(), k, cc);
      CapacityOf(V());
      ok := DirectWrite(sect, Chunks(u, cc), k);
      if ok {
        assert fptr == k * SS;
        PatchRun(d0, d, fsize, p, w, k, cc, u);
        EndOfRun(fs.geo.csize, chain, Places(), dsect, k, cc, clust);
        fptr := fptr + cc * SS;
      }
    }

    /** Part of a sector, through the buffer. */
    method PutPiece(sect: u32, u: seq<u8>, ghost d0: seq<Sector>, ghost p: nat, ghost w: seq<u8>) returns (n: nat)
      requires OnDisk() && InCluster() && sect == Places()[fptr / SS] && 0 < |u| && fptr + |u| < TWO32
      requires dsect == sect || (!dirty && fptr % SS == 0 && fsize <= fptr)
      requires p <= fsize && Patched(d0, Data(), fsize, p, w) && fptr == p + |w|
      modifies this`fptr, this`dirty, this`buf, this`dsect
      ensures Writing() && Places() == old(Places()) && 0 < n <= |u| && fptr == old(fptr) + n
      ensures Patched(d0, Data(), fsize, p, w + u[..n])
    {
      hide View.Placed, View.Data, Fatfs.Logical, Sectors, ClusterNo, CursorAt, Patched;
      ghost var k, d, was := fptr / SS, Data(), buf;
      n := SS - fptr % SS;
      if n > |u| {
        n := |u|;
      }
      CapacityOf(V());
      BufferedSector(V(), k);
      ghost var b := PutBuf(sect, fptr % SS, u[..n], k);
      PatchBuffer(d0, d, fsize, p, w, was, u[..n], fptr, b);
      PieceEnds(fptr, n);
      CursorMoved(fs.geo.csize, chain, Places(), dsect, fptr + n, clust, k);
      fptr := fptr + n;
    }

    /** Whole sectors go straight to the disk; otherwise the buffer gets the sector, unless it lies past the end. */
    method StartSector(sect: u32, u: seq<u8>, ghost d0: seq<Sector>, ghost p: nat, ghost w: seq<u8>)
      returns (res: FResult, n: nat, done: bool)
      requires err == Ok && OnDisk() && !dirty && InCluster() && fptr % SS == 0 && sect == Places()[fptr / SS]
      requires 0 < |u| && fptr + |u| < TWO32 && Patched(d0, Data(), fsize, p, w) && fptr == p + |w|
      modifies this`err, this`fptr, this`dirty, this`buf, this`dsect, fs`disk, fs`faults
      ensures fs.Valid() && res in {Ok, DiskErr} && err == res && n <= |u|
      ensures OthersKept(fs.geo, old(fs.Logical()), fs.Logical(), old(Places()))
      ensures res == Ok && done ==> Writing() && Places() == old(Places()) && fptr == old(fptr) + n && 0 < n
                                    && Patched(d0, Data(), fsize, p, w + u[..n])
      ensures res == Ok && !done ==> OnDisk() && Places() == old(Places()) && InCluster() && Data() == old(Data())
                                     && fptr == old(fptr) && (dsect == sect || (!dirty && fsize <= fptr))
      ensures old(fs.Healthy()) ==> fs.Healthy() && res == Ok
      ensures old(fs.CopiesAgree()) ==> fs.CopiesAgree()
      ensures Fat(fs.geo, fs.Logical()) == old(Fat(fs.geo, fs.Logical()))
    {
      hide View.Placed, View.Data, Fatfs.Healthy, Fatfs.CopiesAgree, Fatfs.Logical, Sectors, Fat, ClusterNo, CursorAt;
      hide OthersKept, Patched;
      res, n, done := Ok, 0, false;
      OthersSelf(fs.geo, fs.Logical(), Places());
      var csect := fptr / SS % fs.geo.csize;
      var cc := |u| / SS;
      if cc != 0 {
        if csect + cc > fs.geo.csize {
          cc := fs.geo.csize - csect;
        }
        n, done := cc * SS, true;
        var ok := WriteSectors(sect, u[..n], cc, d0, p, w);
        if !ok {
          res, err := DiskErr, DiskErr;
        }
        return;
      }
      if dsect != sect && fptr < fsize {
        res := LoadBuf(sect, fptr / SS);
        err := res;
      }
    }

    /** The turn at a sector boundary: done if the disk is full or whole sectors were written directly. */
    method StartPiece(u: seq<u8>, ghost d0: seq<Sector>, ghost p: nat, ghost w: seq<u8>)
      returns (res: FResult, n: nat, done: bool, sect: u32)
      requires err == Ok && Writing() && fptr % SS == 0 && 0 < |u| && fptr + |u| < TWO32
      requires Patched(d0, Data(), fsize, p, w) && fptr == p + |w|
      modifies this`err, this`fptr, this`clust, this`sclust, this`chain, this`dirty, this`buf, this`dsect
      modifies fs`disk, fs`winsect, fs`win, fs`wflag, fs`faults, fs`freeClust, fs`lastClust, fs`fsiFlag
      ensures fs.Valid() && res in {Ok, DiskErr, IntErr} && err == res && n <= |u| && InRange(fs.geo, chain)
      ensures OthersKept(fs.geo, old(fs.Logical()), fs.Logical(), Sectors(fs.geo, chain)) && old(Places()) <= Sectors(fs.geo, chain)
      ensures res == Ok && done ==> Writing() && fptr == old(fptr) + n && Patched(d0, Data(), fsize, p, w + u[..n])
                                    && (n == 0 ==> fsize <= fptr && Full(Fat(fs.geo, fs.Logical())))
      ensures res == Ok && !done ==> OnDisk() && InCluster() && fptr == old(fptr) && sect == Places()[fptr / SS]
                                     && Patched(d0, Data(), fsize, p, w) && (dsect == sect || (!dirty && fsize <= fptr))
      ensures old(fs.Healthy()) ==> fs.Healthy() && res != DiskErr
      ensures old(fs.Healthy()) && old(fs.CopiesAgree()) ==> fs.CopiesAgree()
      ensures res != DiskErr && old(Sane(fs)) ==> Sane(fs) && res == Ok
    {
      hide View.Placed, View.Data, Fatfs.Healthy, Fatfs.CopiesAgree, Fatfs.Logical, Sectors, Fat, ClusterNo, CursorAt;
      hide Full, Damaged, OthersKept, Patched;
      n := 0;
      ghost var l, d := fs.Logical(), Data();
      res, done, sect := EnterForWrite();
      if res != Ok {
        err := res;
        return;
      }
      PatchGrown(d0, d, Data(), fsize, p, w);
      assert w + u[..0] == w;
      if done { return; }
      ghost var l1, ss1 := fs.Logical(), Places();
      res, n, done := StartSector(sect, u, d0, p, w);
      OthersTrans(fs.geo, l, l1, fs.Logical(), ss1, ss1);
    }

    /**
     One turn of f_write's loop on the bytes u still to write, after the bytes w from position p on:
     the first n of them are written, or the disk is full and n is 0.
     */
    method WritePiece(u: seq<u8>, ghost d0: seq<Sector>, ghost p: nat, ghost w: seq<u8>) returns (res: FResult, n: nat)
      requires err == Ok && Writing() && 0 < |u| && fptr + |u| < TWO32
      requires p <= fsize && Patched(d0, Data(), fsize, p, w) && fptr == p + |w|
      modifies this`err, this`fptr, this`clust, this`sclust, this`chain, this`dirty, this`buf, this`dsect
      modifies fs`disk, fs`winsect, fs`win, fs`wflag, fs`faults, fs`freeClust, fs`lastClust, fs`fsiFlag
      ensures fs.Valid() && res in {Ok, DiskErr, IntErr} && err == res && n <= |u| && InRange(fs.geo, chain)
      ensures OthersKept(fs.geo, old(fs.Logical()), fs.Logical(), Sectors(fs.geo, chain)) && old(Places()) <= Sectors(fs.geo, chain)
      ensures res == Ok ==> Writing() && fptr == old(fptr) + n
      ensures res == Ok ==> Patched(d0, Data(), fsize, p, w + u[..n])
      ensures res == Ok && n == 0 ==> fsize <= fptr && Full(Fat(fs.geo, fs.Logical()))
      ensures old(fs.Healthy()) ==> fs.Healthy() && res != DiskErr
      ensures old(fs.Healthy()) && old(fs.CopiesAgree()) ==> fs.CopiesAgree()
      ensures res != DiskErr && old(Sane(fs)) ==> Sane(fs) && res == Ok
    {
      hide View.Placed, View.Data, Fatfs.Healthy, Fatfs.CopiesAgree, Fatfs.Logical, Sectors, Fat, ClusterNo, CursorAt;
      hide Full, Damaged, OthersKept, Patched;
      ViewChain(V());
      OthersSelf(fs.geo, fs.Logical(), Places());
      res, n := Ok, 0;
      var sect := dsect;
      if fptr % SS == 0 {
        var done;
        res, n, done, sect := StartPiece(u, d0, p, w);
        if res != Ok || done { return; }
      } else {
        SameLink(fs.geo.csize, chain, Places(), dsect, fptr, clust);
        InSector(fs.geo.csize, chain, Places(), dsect, fptr, clust);
      }
      n := PutPiece(sect, u, d0, p, w);
    }

    /** f_write: the first bw bytes of data replace those from the cursor on, all of them unless the disk is full. */
    method Write(data: seq<u8>) returns (res: FResult, bw: nat)
      requires Valid() && |data| < TWO32
      modifies this`err, this`fptr, this`fsize, this`clust, this`sclust, this`chain, this`dirty, this`written, this`buf, this`dsect
      modifies fs`disk, fs`winsect, fs`win, fs`wflag, fs`faults, fs`freeClust, fs`lastClust, fs`fsiFlag
      ensures Valid() && bw <= |data| && (old(err) == Ok && canWrite ==> err == res) && (res == Ok ==> err == Ok)
      ensures old(err) != Ok || !canWrite ==> bw == 0 && res == (if old(err) != Ok then old(err) else Denied)
      ensures old(err) == Ok && !canWrite ==> err == Ok && fptr == old(fptr) && Contents() == old(Contents())
      ensures res in {Ok, Denied, old(err), DiskErr, IntErr} && (old(err) == Ok && canWrite ==> res != Denied)
      ensures res == Ok ==>
                && fptr == old(fptr) + bw && fsize == (if old(fsize) < fptr then fptr else old(fsize))
                && Contents() == Spliced(old(Contents()), old(fptr), data[..bw]) && written
      ensures old(fptr) + |data| >= TWO32 ==> bw == 0
      ensures res == Ok && old(fptr) + |data| < TWO32 && bw < |data| ==> old(fsize) <= fptr && Full(Fat(fs.geo, fs.Logical()))
      ensures old(err) == Ok ==> InRange(fs.geo, chain) && OthersKept(fs.geo, old(fs.Logical()), fs.Logical(), Sectors(fs.geo, chain))
      ensures old(err) == Ok ==> old(Places()) <= Sectors(fs.geo, chain)
      ensures old(fs.Healthy()) ==> fs.Healthy() && (old(err) == Ok ==> res != DiskErr)
      ensures old(fs.Healthy()) && old(fs.CopiesAgree()) ==> fs.CopiesAgree()
      ensures old(err) == Ok && canWrite && res != DiskErr && old(Sane(fs)) ==> Sane(fs) && res == Ok
      ensures old(err) == Ok && !canWrite ==> Fat(fs.geo, fs.Logical()) == old(Fat(fs.geo, fs.Logical()))
    {
      hide View.Placed, View.Data, View.Ok, Fatfs.Healthy, Fatfs.CopiesAgree, Fatfs.Logical, Sectors, Fat, CursorAt;
      hide OthersKept, Flatten, Spliced, Full, Damaged, Contents;
      res, bw := Ok, 0;
      if err != Ok {
        return err, 0;
      }
      if !canWrite {
        ViewChain(V());
        OthersSelf(fs.geo, fs.Logical(), Places());
        return Denied, 0;
      }
      var btw := |data|;
      if (fptr + btw) % TWO32 < fptr {
        btw := 0;
      }
      res, bw := WriteAndRecord(data[..btw]);
      assert data[..btw][..bw] == data[..bw];
    }

    /** The loop, then the new size. */
    method WriteAndRecord(data: seq<u8>) returns (res: FResult, bw: nat)
      requires err == Ok && Valid() && fptr + |data| < TWO32
      modifies this`err, this`fptr, this`fsize, this`clust, this`sclust, this`chain, this`dirty, this`written, this`buf, this`dsect
      modifies fs`disk, fs`winsect, fs`win, fs`wflag, fs`faults, fs`freeClust, fs`lastClust, fs`fsiFlag
      ensures Valid() && bw <= |data| && err == res && res in {Ok, DiskErr, IntErr}
      ensures res == Ok ==>
                && fptr == old(fptr) + bw && fsize == (if old(fsize) < fptr then fptr else old(fsize))
                && Contents() == Spliced(old(Contents()), old(fptr), data[..bw]) && written
      ensures res == Ok && bw < |data| ==> old(fsize) <= fptr && Full(Fat(fs.geo, fs.Logical()))
      ensures InRange(fs.geo, chain) && OthersKept(fs.geo, old(fs.Logical()), fs.Logical(), Sectors(fs.geo, chain))
      ensures old(Places()) <= Sectors(fs.geo, chain)
      ensures old(fs.Healthy()) ==> fs.Healthy() && res != DiskErr
      ensures old(fs.Healthy()) && old(fs.CopiesAgree()) ==> fs.CopiesAgree()
      ensures res != DiskErr && old(Sane(fs)) ==> Sane(fs) && res == Ok
    {
      hide View.Placed, View.Data, Fatfs.Healthy, Fatfs.CopiesAgree, Fatfs.Logical, Sectors, Fat, CursorAt, OthersKept, Patched;
      hide Flatten, Spliced, Full, Damaged, Contents;
      ghost var p, d0 := fptr, Data();
      ContentsOf();
      res, bw := WriteAll(data, d0, p);
      if res != Ok { return; }
      PatchedBytes(d0, Data(), fsize, p, data[..bw]);
      RecordSize();
      ContentsOf();
    }

    lemma ContentsOf()
      requires OnDisk()
      ensures Contents() == Flatten(Data(), fsize)
    {
    }

    method RecordSize()
      requires err == Ok && Writing()
      modifies this`fsize, this`written
      ensures Valid() && Data() == old(Data()) && fsize == (if old(fsize) < fptr then fptr else old(fsize)) && written
    {
      hide View.Placed, View.Data, Fatfs.Logical, Sectors, CursorAt;
      if fptr > fsize {
        Resized(V(), fptr);
        fsize := fptr;
      }
      written := true;
    }

    /** f_write's loop. */
    method WriteAll(data: seq<u8>, ghost d0: seq<Sector>, ghost p: nat) returns (res: FResult, bw: nat)
      requires err == Ok && Valid() && fptr + |data| < TWO32 && d0 == Data() && p == fptr
      modifies this`err, this`fptr, this`clust, this`sclust, this`chain, this`dirty, this`buf, this`dsect
      modifies fs`disk, fs`winsect, fs`win, fs`wflag, fs`faults, fs`freeClust, fs`lastClust, fs`fsiFlag
      ensures fs.Valid() && res in {Ok, DiskErr, IntErr} && err == res && bw <= |data| && InRange(fs.geo, chain)
      ensures OthersKept(fs.geo, old(fs.Logical()), fs.Logical(), Sectors(fs.geo, chain)) && old(Places()) <= Sectors(fs.geo, chain)
      ensures res == Ok ==> Writing() && fptr == p + bw && Patched(d0, Data(), fsize, p, data[..bw])
      ensures res == Ok && bw < |data| ==> fsize <= fptr && Full(Fat(fs.geo, fs.Logical()))
      ensures old(fs.Healthy()) ==> fs.Healthy() && res != DiskErr
      ensures old(fs.Healthy()) && old(fs.CopiesAgree()) ==> fs.CopiesAgree()
      ensures res != DiskErr && old(Sane(fs)) ==> Sane(fs) && res == Ok
    {
      hide View.Placed, View.Data, Fatfs.Healthy, Fatfs.CopiesAgree, Fatfs.Logical, Sectors, Fat, CursorAt;
      hide OthersKept, Patched, Full, Damaged;
      res, bw := Ok, 0;
      ghost var l, ss := fs.Logical(), Places();
      ViewChain(V());
      OthersSelf(fs.geo, l, ss);
      PatchNothing(d0, fsize, p);
      assert data[..0] == [];
      var full := false;
      while bw < |data| && !full
        invariant err == Ok && res == Ok && Writing() && bw <= |data| && p + |data| < TWO32
        invariant fptr == p + bw && p <= fsize && Patched(d0, Data(), fsize, p, data[..bw])
        invariant InRange(fs.geo, chain) && OthersKept(fs.geo, l, fs.Logical(), Places()) && ss <= Places()
        invariant full ==> fsize <= fptr && Full(Fat(fs.geo, fs.Logical()))
        invariant old(fs.Healthy()) ==> fs.Healthy()
        invariant old(fs.Healthy()) && old(fs.CopiesAgree()) ==> fs.CopiesAgree()
        invariant old(Sane(fs)) ==> Sane(fs)
        decreases |data| - bw, !full
      {
        ghost var l1, ss1 := fs.Logical(), Places();
        var n;
        res, n := WritePiece(data[bw..], d0, p, data[..bw]);
        OthersTrans(fs.geo, l, l1, fs.Logical(), ss1, Sectors(fs.geo, chain));
        PrefixJoin(ss, ss1, Sectors(fs.geo, chain));
        if res != Ok { return; }
        assert data[..bw] + data[bw..][..n] == data[..bw + n];
        bw := bw + n;
        full := n == 0;
      }
    }

    // ---------------------------------------------------------------- f_lseek

    /** fptr is the start of the i-th cluster, which is the current one. */
    ghost predicate AtStart(i: nat, k: nat)
      requires OnDisk()
      reads this, fs
    {
      StartOf(fs.geo.csize, i, k) && fptr == k * SS && i < |chain| && clust == chain[i]
    }

    /** The file is as before, apart from clusters added behind it. */
    twostate predicate Extended()
      requires old(OnDisk()) && OnDisk()
      reads this, fs
    {
      && old(Places()) <= Places() && Data()[..|old(Data())|] == old(Data())
      && OthersKept(fs.geo, old(fs.Logical()), fs.Logical(), Places())
    }

    /** Where the search for the cluster of byte ofs - 1 starts: at the current cluster, or at the first one. */
    method SeekStart(ofs: u32, ifptr: u32) returns (res: FResult, clst: u32, rest: u32, ghost i: nat, ghost k: nat)
      requires OnDisk() && 0 < ofs && CursorAt(fs.geo.csize, chain, Places(), dsect, ifptr, clust)
      modifies this`fptr, this`clust, this`sclust, this`chain
      modifies fs`disk, fs`winsect, fs`win, fs`wflag, fs`faults, fs`freeClust, fs`lastClust, fs`fsiFlag
      ensures fs.Valid() && res in {Ok, DiskErr, IntErr} && InRange(fs.geo, chain)
      ensures OthersKept(fs.geo, old(fs.Logical()), fs.Logical(), Sectors(fs.geo, chain)) && old(Places()) <= Sectors(fs.geo, chain)
      ensures res == Ok ==> OnDisk() && Extended() && clst == clust
      ensures res == Ok && clst == 0 ==> fptr == 0 && Full(Fat(fs.geo, fs.Logical())) && old(chain) == chain == []
      ensures res == Ok && clst != 0 ==> AtStart(i, k) && 0 < rest && fptr + rest == ofs
      ensures old(fs.Healthy()) ==> fs.Healthy() && res != DiskErr
      ensures old(fs.Healthy()) && old(fs.CopiesAgree()) ==> fs.CopiesAgree()
      ensures res != DiskErr && old(Sane(fs)) ==> Sane(fs) && res == Ok
    {
      hide View.Placed, View.Data, Fatfs.Healthy, Fatfs.CopiesAgree, Fatfs.Logical, Sectors, IsChain, Laid, Fat, ClusterNo, StartOf;
      hide Full, Damaged, OthersKept;
      res, rest, i, k := Ok, ofs, 0, 0;
      ViewChain(V());
      OthersSelf(fs.geo, fs.Logical(), Places());
      var bcs := fs.geo.csize * SS;
      fptr := 0;
      if ifptr > 0 && (ofs - 1) / bcs >= (ifptr - 1) / bcs {
        k := ClusterBase(ifptr - 1, fs.geo.csize, bcs);
        i := ClusterNo(fs.geo.csize, (ifptr - 1) / SS);
        NotBefore(ofs - 1, ifptr - 1, bcs);
        fptr := (ifptr - 1) - (ifptr - 1) % bcs;
        rest := ofs - fptr;
        clst := clust;
      } else {
        clst := sclust;
        StartZero(fs.geo.csize);
        if clst == 0 {
          ghost var l, ss := fs.Logical(), Places();
          res, clst := Stretch(0, 0);
          if res != Ok { return; }
          ViewChain(V());
          OthersTrans(fs.geo, l, fs.Logical(), fs.Logical(), ss, Places()) by { OthersSelf(fs.geo, fs.Logical(), Places()); }
        }
        clust := clst;
      }
    }

    /** One step of the cluster following loop: the next cluster, allocated in write mode; 0 if the disk is full. */
    method SeekNext(clst: u32, ghost i: nat, ghost k: nat) returns (res: FResult, next: u32)
      requires OnDisk() && AtStart(i, k) && clst == clust && (canWrite || i + 1 < |chain|)
      modifies this`clust, this`sclust, this`chain
      modifies fs`disk, fs`winsect, fs`win, fs`wflag, fs`faults, fs`freeClust, fs`lastClust, fs`fsiFlag
      ensures fs.Valid() && res in {Ok, DiskErr, IntErr} && InRange(fs.geo, chain)
      ensures OthersKept(fs.geo, old(fs.Logical()), fs.Logical(), old(Places()))
      ensures old(Places()) <= Sectors(fs.geo, chain)
      ensures res == Ok ==> OnDisk() && Extended() && i < |chain|
      ensures res == Ok && next == 0 ==>
                canWrite && clust == old(clust) && clust == chain[i] && i + 1 == |chain| && Full(Fat(fs.geo, fs.Logical()))
      ensures res == Ok && next != 0 ==> i + 1 < |chain| && next == clust == chain[i + 1]
      ensures old(fs.Healthy()) ==> fs.Healthy() && res != DiskErr
      ensures old(fs.Healthy()) && old(fs.CopiesAgree()) ==> fs.CopiesAgree()
      ensures res != DiskErr && old(Sane(fs)) ==> Sane(fs) && res == Ok
    {
      hide View.Placed, View.Data, Fatfs.Healthy, Fatfs.CopiesAgree, Fatfs.Logical, Sectors, IsChain, Laid, Fat, ClusterNo, StartOf;
      hide Full, Damaged, OthersKept;
      ghost var v, l, ss := V(), fs.Logical(), Places();
      ViewChain(v);
      OthersSelf(fs.geo, l, ss);
      next := clst;
      if canWrite {
        res, next := Stretch(next, i + 1);
        if res != Ok { return; }
        ViewChain(V());
        OthersTrans(fs.geo, l, fs.Logical(), fs.Logical(), ss, Places()) by { OthersSelf(fs.geo, fs.Logical(), Places()); }
        if next == 0 { return; }
      } else {
        LinkOf(v, i + 1);
        next := GetFat(fs, next);
        WindowMoved(v, fs.winsect);
      }
      if next == NOSECT {
        return DiskErr, next;
      }
      if next <= 1 || next >= fs.geo.nFatent {
        return IntErr, next;
      }
      clust := next;
      res := Ok;
    }

    /** The cluster following loop: rest ends up as the offset into the last cluster reached, clst is 0 if the disk got full. */
    method SeekFollow(first: u32, ofs: u32, ghost target: nat, ghost i0: nat, ghost k0: nat)
      returns (res: FResult, clst: u32, rest: u32, ghost i: nat, ghost k: nat)
      requires OnDisk() && AtStart(i0, k0) && first == clust && first != 0 && 0 < ofs && target == fptr + ofs < TWO32
      requires canWrite || target <= fsize
      modifies this`fptr, this`clust, this`sclust, this`chain
      modifies fs`disk, fs`winsect, fs`win, fs`wflag, fs`faults, fs`freeClust, fs`lastClust, fs`fsiFlag
      ensures fs.Valid() && res in {Ok, DiskErr, IntErr} && InRange(fs.geo, chain)
      ensures OthersKept(fs.geo, old(fs.Logical()), fs.Logical(), Sectors(fs.geo, chain)) && old(Places()) <= Sectors(fs.geo, chain)
      ensures res == Ok ==> OnDisk() && Extended() && AtStart(i, k) && 0 < rest <= fs.geo.csize * SS
      ensures res == Ok && clst != 0 ==> clst == clust && fptr + rest == target
      ensures res == Ok && clst == 0 ==>
                rest == fs.geo.csize * SS && fsize <= fptr + rest < target && canWrite && Full(Fat(fs.geo, fs.Logical()))
      ensures old(fs.Healthy()) ==> fs.Healthy() && res != DiskErr
      ensures old(fs.Healthy()) && old(fs.CopiesAgree()) ==> fs.CopiesAgree()
      ensures res != DiskErr && old(Sane(fs)) ==> Sane(fs) && res == Ok
    {
      hide View.Placed, View.Data, Fatfs.Healthy, Fatfs.CopiesAgree, Fatfs.Logical, Sectors, IsChain, Laid, Fat, ClusterNo, StartOf;
      hide Full, Damaged, OthersKept;
      res, clst, rest, i, k := Ok, first, ofs, i0, k0;
      ghost var l, ss, d := fs.Logical(), Places(), Data();
      ViewChain(V());
      OthersSelf(fs.geo, l, ss);
      var bcs := fs.geo.csize * SS;
      while rest > bcs
        invariant OnDisk() && Extended() && AtStart(i, k) && InRange(fs.geo, chain) && clst == clust && clst != 0
        invariant res == Ok && 0 < rest && fptr + rest == target
        invariant old(fs.Healthy()) ==> fs.Healthy()
        invariant old(fs.Healthy()) && old(fs.CopiesAgree()) ==> fs.CopiesAgree()
        invariant old(Sane(fs)) ==> Sane(fs)
        decreases rest
      {
        ghost var l1, ss1, d1 := fs.Logical(), Places(), Data();
        if !canWrite {
          ViewChain(V());
          RoomLeft(k, fs.geo.csize, rest, fsize, |ss1|);
          MoreClusters(fs.geo, chain, ss1, i, k);
        }
        res, clst := SeekNext(clst, i, k);
        OthersTrans(fs.geo, l, l1, fs.Logical(), ss1, Sectors(fs.geo, chain)) by {
          SameOthers(fs.geo, l1, fs.Logical(), ss1, Sectors(fs.geo, chain));
        }
        PrefixJoin(ss, ss1, Sectors(fs.geo, chain));
        if res != Ok { return; }
        PrefixTrans(d, d1, Data());
        if clst == 0 {
          rest := bcs;
          CapacityOf(V());
          ViewChain(V());
          LastCluster(fs.geo, chain, Places(), i, k);
          return;
        }
        StartNext(fs.geo.csize, i, k);
        i, k := i + 1, k + fs.geo.csize;
        fptr := fptr + bcs;
        rest := rest - bcs;
      }
    }

    /** off bytes into the current cluster. */
    method SeekLand(clst: u32, off: u32, ghost i: nat, ghost k: nat) returns (res: FResult, nsect: u32)
      requires OnDisk() && AtStart(i, k) && 0 < off <= fs.geo.csize * SS && fptr + off < TWO32
      requires clst == clust || (clst == 0 && off == fs.geo.csize * SS)
      modifies this`fptr
      ensures OnDisk() && Places() == old(Places()) && Data() == old(Data())
      ensures res == Ok && fptr == old(fptr) + off <= |Places()| * SS
      ensures fptr % SS != 0 ==> fptr / SS < |Places()| && nsect == Places()[fptr / SS]
      ensures CursorAt(fs.geo.csize, chain, Places(), if fptr % SS != 0 then nsect else dsect, fptr, clust)
    {
      hide View.Placed, View.Data, Fatfs.Logical, Sectors, IsChain, Laid, Fat, ClusterNo, StartOf, CursorAt;
      res, nsect := Ok, 0;
      ViewChain(V());
      WholeSectors(fs.geo.csize);
      AddSectors(k, off);
      fptr := fptr + off;
      if off % SS != 0 {
        SeekSector(fs.geo, chain, Places(), i, k, off);
        SectorInside(V(), k + off / SS);
        nsect := Clust2Sect(fs.geo, clst);
        if nsect == 0 {
          res := IntErr;
          return;
        }
        nsect := nsect + off / SS;
      }
      SeekCursor(fs.geo, chain, Places(), if off % SS != 0 then nsect else dsect, i, k, off, clust);
    }

    /** Everything up to and including the cluster search: the new cursor, and the sector it is inside of, if any. */
    method SeekCluster(ofs: u32, ifptr: u32) returns (res: FResult, nsect: u32)
      requires OnDisk() && CursorAt(fs.geo.csize, chain, Places(), dsect, ifptr, clust) && (canWrite || ofs <= fsize)
      modifies this`fptr, this`clust, this`sclust, this`chain
      modifies fs`disk, fs`winsect, fs`win, fs`wflag, fs`faults, fs`freeClust, fs`lastClust, fs`fsiFlag
      ensures fs.Valid() && res in {Ok, DiskErr, IntErr} && InRange(fs.geo, chain)
      ensures OthersKept(fs.geo, old(fs.Logical()), fs.Logical(), Sectors(fs.geo, chain)) && old(Places()) <= Sectors(fs.geo, chain)
      ensures res == Ok ==> OnDisk() && Extended() && fptr <= |Places()| * SS
      ensures res == Ok ==> fptr == ofs || (fsize <= fptr < ofs && canWrite && Full(Fat(fs.geo, fs.Logical())))
      ensures res == Ok && fptr % SS != 0 ==> fptr / SS < |Places()| && nsect == Places()[fptr / SS]
      ensures res == Ok ==> CursorAt(fs.geo.csize, chain, Places(), if fptr % SS != 0 then nsect else dsect, fptr, clust)
      ensures old(fs.Healthy()) ==> fs.Healthy() && res != DiskErr
      ensures old(fs.Healthy()) && old(fs.CopiesAgree()) ==> fs.CopiesAgree()
      ensures res != DiskErr && old(Sane(fs)) ==> Sane(fs) && res == Ok
    {
      hide View.Placed, View.Data, Fatfs.Healthy, Fatfs.CopiesAgree, Fatfs.Logical, Sectors, IsChain, Laid, Fat, ClusterNo, StartOf, CursorAt;
      hide Full, Damaged, OthersKept;
      res, nsect := Ok, 0;
      ghost var l, ss, d := fs.Logical(), Places(), Data();
      ViewChain(V());
      OthersSelf(fs.geo, l, ss);
      FreshCursor(fs.geo.csize, chain, ss, dsect, clust);
      fptr := 0;
      if ofs != 0 {
        var clst, rest;
        ghost var i, k;
        res, clst, rest, i, k := SeekStart(ofs, ifptr);
        if res != Ok { return; }
        FreshCursor(fs.geo.csize, chain, Places(), dsect, clust);
        ViewChain(V());
        if clst != 0 {
          ghost var l1, ss1, d1 := fs.Logical(), Places(), Data();
          res, clst, rest, i, k := SeekFollow(clst, rest, ofs, i, k);
          OthersTrans(fs.geo, l, l1, fs.Logical(), ss1, Sectors(fs.geo, chain));
          if res != Ok { return; }
          PrefixJoin(ss, ss1, Places());
          PrefixTrans(d, d1, Data());
          res, nsect := SeekLand(clst, rest, i, k);
        }
      }
    }

    /** Fills the sector buffer if the cursor is inside a sector it does not hold. */
    method FillBuf(nsect: u32) returns (res: FResult)
      requires OnDisk() && fptr <= |Places()| * SS
      requires fptr % SS != 0 ==> fptr / SS < |Places()| && nsect == Places()[fptr / SS]
      requires CursorAt(fs.geo.csize, chain, Places(), if fptr % SS != 0 then nsect else dsect, fptr, clust)
      modifies this`dirty, this`buf, this`dsect, fs`disk, fs`faults
      ensures fs.Valid() && res in {Ok, DiskErr} && OthersKept(fs.geo, old(fs.Logical()), fs.Logical(), old(Places()))
      ensures res == Ok ==> Writing() && Data() == old(Data())
      ensures Fat(fs.geo, fs.Logical()) == old(Fat(fs.geo, fs.Logical()))
      ensures old(fs.Healthy()) ==> fs.Healthy() && res == Ok
      ensures old(fs.CopiesAgree()) ==> fs.CopiesAgree()
    {
      hide View.Placed, View.Data, Fatfs.Healthy, Fatfs.CopiesAgree, Fatfs.Logical, Sectors, Fat, CursorAt, OthersKept;
      res := Ok;
      OthersSelf(fs.geo, fs.Logical(), Places());
      if fptr % SS != 0 && nsect != dsect {
        res := LoadBuf(nsect, fptr / SS);
      }
    }

    /**
     f_lseek: the cursor goes to ofs, in read mode at most to the end of the file; in write mode the file is
     stretched to reach it, with whatever the new clusters hold, and falls short only if the disk is full.
     */
    method Seek(ofs: u32) returns (res: FResult)
      requires Valid()
      modifies this`err, this`fptr, this`fsize, this`clust, this`sclust, this`chain, this`dirty, this`written, this`buf, this`dsect
      modifies fs`disk, fs`winsect, fs`win, fs`wflag, fs`faults, fs`freeClust, fs`lastClust, fs`fsiFlag
      ensures Valid() && err == res && (old(err) != Ok ==> res == old(err)) && res in {Ok, old(err), DiskErr, IntErr}
      ensures res == Ok ==>
                var target := if canWrite || ofs < old(fsize) then ofs else old(fsize);
                && (fptr == target || (old(fsize) <= fptr < target && canWrite && Full(Fat(fs.geo, fs.Logical()))))
                && fsize == (if old(fsize) < fptr then fptr else old(fsize))
                && Contents()[..old(fsize)] == old(Contents())
                && written == (old(written) || old(fsize) < fptr)
      ensures old(err) == Ok ==> InRange(fs.geo, chain) && OthersKept(fs.geo, old(fs.Logical()), fs.Logical(), Sectors(fs.geo, chain))
      ensures old(err) == Ok ==> old(Places()) <= Sectors(fs.geo, chain)
      ensures old(fs.Healthy()) && old(err) == Ok ==> fs.Healthy() && res != DiskErr
      ensures old(fs.Healthy()) && old(fs.CopiesAgree()) ==> fs.CopiesAgree()
      ensures old(err) == Ok && res != DiskErr && old(Sane(fs)) ==> Sane(fs) && res == Ok
    {
      hide View.Placed, View.Data, View.Ok, Fatfs.Healthy, Fatfs.CopiesAgree, Fatfs.Logical, Sectors, Fat, CursorAt;
      hide OthersKept, Flatten, Full, Damaged, Contents;
      if err != Ok {
        return err;
      }
      var target := ofs;
      if ofs > fsize && !canWrite {
        target := fsize;
      }
      res := SeekTo(target);
    }

    /** f_lseek to a target already clipped for files that are only read. */
    method SeekTo(target: u32) returns (res: FResult)
      requires err == Ok && Valid() && (canWrite || target <= fsize)
      modifies this`err, this`fptr, this`fsize, this`clust, this`sclust, this`chain, this`dirty, this`written, this`buf, this`dsect
      modifies fs`disk, fs`winsect, fs`win, fs`wflag, fs`faults, fs`freeClust, fs`lastClust, fs`fsiFlag
      ensures Valid() && err == res && res in {Ok, DiskErr, IntErr}
      ensures res == Ok ==>
                && (fptr == target || (old(fsize) <= fptr < target && canWrite && Full(Fat(fs.geo, fs.Logical()))))
                && fsize == (if old(fsize) < fptr then fptr else old(fsize))
                && Contents()[..old(fsize)] == old(Contents())
                && written == (old(written) || old(fsize) < fptr)
      ensures InRange(fs.geo, chain) && OthersKept(fs.geo, old(fs.Logical()), fs.Logical(), Sectors(fs.geo, chain))
      ensures old(Places()) <= Sectors(fs.geo, chain)
      ensures old(fs.Healthy()) ==> fs.Healthy() && res != DiskErr
      ensures old(fs.Healthy()) && old(fs.CopiesAgree()) ==> fs.CopiesAgree()
      ensures res != DiskErr && old(Sane(fs)) ==> Sane(fs) && res == Ok
    {
      hide View.Placed, View.Data, Fatfs.Healthy, Fatfs.CopiesAgree, Fatfs.Logical, Sectors, IsChain, Laid, Fat, CursorAt;
      hide Full, Damaged, OthersKept, Flatten, Contents;
      ghost var d := Data();
      ContentsOf();
      CapacityOf(V());
      res := SeekData(target);
      if res != Ok { return; }
      FlattenGrown(d, Data(), old(fsize), if fptr > fsize then fptr else fsize);
      if fptr > fsize {
        RecordSize();
      }
      ContentsOf();
    }

    /** All of f_lseek but the size: clusters and the sector buffer. */
    method SeekData(target: u32) returns (res: FResult)
      requires err == Ok && Valid() && (canWrite || target <= fsize)
      modifies this`err, this`fptr, this`clust, this`sclust, this`chain, this`dirty, this`buf, this`dsect
      modifies fs`disk, fs`winsect, fs`win, fs`wflag, fs`faults, fs`freeClust, fs`lastClust, fs`fsiFlag
      ensures fs.Valid() && err == res && res in {Ok, DiskErr, IntErr} && InRange(fs.geo, chain)
      ensures OthersKept(fs.geo, old(fs.Logical()), fs.Logical(), Sectors(fs.geo, chain)) && old(Places()) <= Sectors(fs.geo, chain)
      ensures res == Ok ==> Writing() && |old(Data())| <= |Data()| && Data()[..|old(Data())|] == old(Data())
      ensures res == Ok ==> fptr == target || (fsize <= fptr < target && canWrite && Full(Fat(fs.geo, fs.Logical())))
      ensures old(fs.Healthy()) ==> fs.Healthy() && res != DiskErr
      ensures old(fs.Healthy()) && old(fs.CopiesAgree()) ==> fs.CopiesAgree()
      ensures res != DiskErr && old(Sane(fs)) ==> Sane(fs) && res == Ok
    {
      hide View.Placed, View.Data, Fatfs.Healthy, Fatfs.CopiesAgree, Fatfs.Logical, Sectors, IsChain, Laid, Fat, CursorAt;
      hide Full, Damaged, OthersKept;
      ghost var l := fs.Logical();
      var nsect;
      res, nsect := SeekCluster(target, fptr);
      if res == Ok {
        ghost var l1, ss1 := fs.Logical(), Places();
        res := FillBuf(nsect);
        OthersTrans(fs.geo, l, l1, fs.Logical(), ss1, ss1);
      }
      if res != Ok {
        err := res;
      }
    }
  }

  lemma SameOthers(g: Geometry, l: seq<Sector>, l': seq<Sector>, ss: seq<nat>, ss': seq<nat>)
    requires OthersKept(g, l, l', ss) && ss <= ss'
    ensures OthersKept(g, l, l', ss')
  {
    OthersSelf(g, l, ss);
    OthersSelf(g, l', ss');
    OthersTrans(g, l, l', l', ss, ss');
  }

  lemma WholeSectors(d: nat)
    ensures d * SS % SS == 0
  {
  }

  lemma AddSectors(k: nat, n: nat)
    ensures (k * SS + n) / SS == k + n / SS && (k * SS + n) % SS == n % SS
  {
    DivUnique(k * SS + n, SS, k + n / SS, n % SS);
  }

  lemma PrefixJoin(a: seq<nat>, b: seq<nat>, c: seq<nat>)
    requires a <= b <= c
    ensures a <= c
  {
  }

  lemma PrefixTrans(a: seq<Sector>, b: seq<Sector>, c: seq<Sector>)
    requires |a| <= |b| <= |c| && b[..|a|] == a && c[..|b|] == b
    ensures c[..|a|] == a
  {
    assert c[..|b|][..|a|] == c[..|a|];
  }

  lemma RoomLeft(k: nat, d: nat, rest: nat, size: nat, m: nat)
    requires k * SS + rest <= size <= m * SS && rest > d * SS
    ensures k + d < m
  {
  }

  lemma NotBefore(x: nat, y: nat, d: nat)
    requires 0 < d && x / d >= y / d
    ensures x >= y - y % d
  {
    assert x == d * (x / d) + x % d && y == d * (y / d) + y % d;
    MulMono(y / d, x / d, d);
  }

  lemma BufferedSector(v: View, k: nat)
    requires v.Ok() && k < |v.Places()|
    ensures v.dsect == v.Places()[k] ==> v.Data()[k] == v.buf
  {
    hide Fat, Sectors, Whole;
  }

  lemma FirstCluster(d: nat)
    requires 0 < d
    ensures ClusterNo(d, 0) == 0
  {
  }
}
