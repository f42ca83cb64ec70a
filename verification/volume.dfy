/** The one-sector write-back window of a mounted FAT volume (driver/ff.c), and the disk it stands for. */
module Volume {
  import opened Words

  const SS: int := 512
  const NOSECT: int := 0xFFFF_FFFF

  type u8 = x: int | 0 <= x < 0x100
  type Sector = s: seq<u8> | |s| == SS witness seq(SS, _ => 0)

  datatype FResult = Ok | DiskErr | IntErr | NoFile | Denied

  datatype FatType = Fat12 | Fat16 | Fat32

  /** What mounting reads from the boot sector; all of it is fixed while the volume is mounted. */
  datatype Geometry = Geometry(
    fsType: FatType,
    csize: nat,       // sectors per cluster
    nFats: nat,       // copies of the FAT
    nFatent: nat,     // FAT entries, two more than there are clusters
    fsize: nat,       // sectors per FAT
    fatbase: nat,
    dirbase: nat,     // root directory: first sector, or first cluster if FAT32
    nRootdir: nat,
    database: nat,
    total: nat)       // sectors on the disk
  {
    /** Bytes of one FAT, as mounting computes them. */
    function TableBytes(): nat {
      match fsType
      case Fat12 => nFatent * 3 / 2 + nFatent % 2
      case Fat16 => nFatent * 2
      case Fat32 => nFatent * 4
    }

    /** Mounting's checks, and no 32-bit overflow in sector or cluster numbers. */
    predicate Valid() {
      && nFats in {1, 2} && csize in {1, 2, 4, 8, 16, 32, 64, 128}
      && 2 < nFatent <= (match fsType case Fat12 => 4087 case Fat16 => 65527 case Fat32 => 0x0FFF_FFFF)
      && 1 <= fatbase && 0 < fsize && TableBytes() <= fsize * SS
      && fatbase + nFats * fsize <= database
      && database + (nFatent - 2) * csize <= total < NOSECT
    }

    /** Mounting's layout of the root directory. */
    predicate RootValid() {
      && nRootdir < 0x1_0000 && nRootdir % 16 == 0 && dirbase < TWO32
      && (if fsType == Fat32 then nRootdir == 0 else dirbase == fatbase + nFats * fsize && dirbase + nRootdir / 16 <= database)
    }

    predicate InFat(s: int) {
      fatbase <= s < fatbase + fsize
    }

    predicate InMirror(s: int) {
      nFats == 2 && fatbase + fsize <= s < fatbase + 2 * fsize
    }

    /** The sector of the first FAT that a sector of the second one copies. */
    function Home(s: int): int {
      if InMirror(s) then s - fsize else s
    }
  }

  /** The disk as the file system sees it: the window laid over it, and both FATs alike. */
  function Overlay(g: Geometry, disk: seq<Sector>, winsect: u32, win: Sector): (l: seq<Sector>)
    requires g.Valid() && |disk| == g.total
    ensures |l| == g.total
    ensures forall s :: 0 <= s < g.total ==> l[s] == if g.Home(s) == winsect then win else disk[g.Home(s)]
  {
    seq(g.total, s requires 0 <= s < g.total => if g.Home(s) == winsect then win else disk[g.Home(s)])
  }

  /** Sectors under the window and the other FAT copies do not show. */
  lemma OverlayKept(g: Geometry, disk: seq<Sector>, disk': seq<Sector>, winsect: u32, win: Sector)
    requires g.Valid() && |disk| == |disk'| == g.total
    requires forall s :: 0 <= s < g.total && s != winsect && !g.InMirror(s) ==> disk'[s] == disk[s]
    ensures Overlay(g, disk', winsect, win) == Overlay(g, disk, winsect, win)
  {
  }

  /** Data sectors show as they are on the disk. */
  lemma OverlayWritten(g: Geometry, disk: seq<Sector>, disk': seq<Sector>, winsect: u32, win: Sector, from: int, n: int)
    requires g.Valid() && |disk| == |disk'| == g.total && g.database <= from && !(from <= winsect < from + n)
    requires forall s :: 0 <= s < g.total && !(from <= s < from + n) ==> disk'[s] == disk[s]
    ensures forall s :: 0 <= s < g.total && !(from <= s < from + n) ==>
              Overlay(g, disk', winsect, win)[s] == Overlay(g, disk, winsect, win)[s]
    ensures forall s :: 0 <= s < g.total && from <= s < from + n ==> Overlay(g, disk', winsect, win)[s] == disk'[s]
    ensures forall except :: AgreeExcept(g, disk, except) ==> AgreeExcept(g, disk', except)
  {
  }

  /** Every FAT copy equals the first, except possibly at one sector. */
  ghost predicate AgreeExcept(g: Geometry, disk: seq<Sector>, except: int)
    requires g.Valid() && |disk| == g.total
  {
    forall s :: 0 <= s < g.total && g.InMirror(s) ==> disk[s] == disk[g.Home(s)] || g.Home(s) == except
  }

  lemma CopiesFlushed(g: Geometry, disk: seq<Sector>, disk': seq<Sector>, sector: int, except: int)
    requires g.Valid() && |disk| == |disk'| == g.total && 0 <= sector < g.total && AgreeExcept(g, disk, except) && except == sector
    requires forall s :: 0 <= s < g.total && s != sector && !(g.InMirror(s) && g.Home(s) == sector) ==> disk'[s] == disk[s]
    requires g.InFat(sector) ==> forall s :: 0 <= s < g.total && g.InMirror(s) && g.Home(s) == sector ==> disk'[s] == disk'[sector]
    requires !g.InMirror(sector)
    ensures AgreeExcept(g, disk', NOSECT)
  {
  }

  class Fatfs {
    const geo: Geometry
    var disk: seq<Sector>
    var winsect: u32
    var win: Sector
    var wflag: bool
    var lastClust: u32
    var freeClust: u32
    var fsiFlag: u8
    var faults: seq<bool>    // outcomes of the disk calls to come; calls past the end succeed

    /**
     As mounting leaves it: the boot sector, or the one after it, is in the window; the counts are unknown, or
     what that sector says.
     */
    constructor (geo: Geometry, disk: seq<Sector>, boot: nat, lastClust: u32, freeClust: u32, fsiFlag: u8, faults: seq<bool>)
      requires geo.Valid() && |disk| == geo.total && boot < geo.fatbase
      ensures this.geo == geo && this.disk == disk && this.faults == faults && Valid() && !wflag && winsect == boot
      ensures this.lastClust == lastClust && this.freeClust == freeClust && this.fsiFlag == fsiFlag
      ensures AgreeExcept(geo, disk, NOSECT) ==> CopiesAgree() && Logical() == disk
    {
      this.geo, this.disk, this.faults := geo, disk, faults;
      this.lastClust, this.freeClust, this.fsiFlag := lastClust, freeClust, fsiFlag;
      winsect, wflag, win := boot, false, disk[boot];
      new;
      if AgreeExcept(geo, disk, NOSECT) {
        FlushedDisk();
      }
    }

    ghost predicate Valid()
      reads this`disk, this`winsect, this`win, this`wflag
    {
      && geo.Valid() && |disk| == geo.total
      && (winsect == NOSECT || (winsect < geo.total && !geo.InMirror(winsect)))
      && (wflag ==> winsect != NOSECT)
      && (!wflag && winsect != NOSECT ==> win == disk[winsect])
    }

    ghost function Logical(): (l: seq<Sector>)
      requires Valid()
      reads this`disk, this`winsect, this`win, this`wflag
      ensures |l| == geo.total
    {
      Overlay(geo, disk, winsect, win)
    }

    /** Every FAT copy equals the first, except for a dirty sector still in the window. */
    ghost predicate CopiesAgree()
      requires Valid()
      reads this`disk, this`winsect, this`win, this`wflag
    {
      AgreeExcept(geo, disk, if wflag then winsect else NOSECT)
    }

    ghost predicate Healthy()
      reads this`faults
    {
      forall i :: 0 <= i < |faults| ==> !faults[i]
    }

    // ---------------------------------------------------------------- disk calls

    method NextFault() returns (fault: bool)
      modifies this`faults
      ensures old(Healthy()) ==> !fault && Healthy()
    {
      fault := false;
      if |faults| > 0 {
        fault := faults[0];
        faults := faults[1..];
      }
    }

    method DiskRead(sector: nat, count: nat) returns (ok: bool, data: seq<Sector>)
      modifies this`faults
      ensures |data| == count
      ensures ok ==> sector + count <= |disk| && data == disk[sector..sector + count]
      ensures old(Healthy()) ==> Healthy() && (ok <==> sector + count <= |disk|)
    {
      var fault := NextFault();
      ok := !fault && sector + count <= |disk|;
      if ok {
        data := disk[sector..sector + count];
      } else {
        data := seq(count, _ => seq(SS, _ => 0));
      }
    }

    /** A failed write may leave anything in the sectors it was aimed at. */
    method DiskWrite(sector: nat, data: seq<Sector>) returns (ok: bool)
      modifies this`disk, this`faults
      ensures |disk| == |old(disk)|
      ensures forall s :: 0 <= s < |disk| && !(sector <= s < sector + |data|) ==> disk[s] == old(disk)[s]
      ensures ok ==> sector + |data| <= |disk| && disk[sector..sector + |data|] == data
      ensures old(Healthy()) ==> Healthy() && (ok <==> sector + |data| <= |disk|)
    {
      var fault := NextFault();
      ok := !fault && sector + |data| <= |disk|;
      if ok {
        disk := disk[..sector] + data + disk[sector + |data|..];
      }
    }

    method WriteSector(sector: nat, data: Sector) returns (ok: bool)
      modifies this`disk, this`faults
      ensures |disk| == |old(disk)|
      ensures forall s :: 0 <= s < |disk| && s != sector ==> disk[s] == old(disk)[s]
      ensures ok ==> sector < |disk| && disk[sector] == data
      ensures old(Healthy()) ==> Healthy() && (ok <==> sector < |disk|)
    {
      ok := DiskWrite(sector, [data]);
      if ok {
        assert disk[sector..sector + 1] == [data];
        assert disk[sector] == disk[sector..sector + 1][0];
      }
    }

    method ReadSector(sector: nat) returns (ok: bool, data: Sector)
      modifies this`faults
      ensures ok ==> sector < |disk| && data == disk[sector]
      ensures old(Healthy()) ==> Healthy() && (ok <==> sector < |disk|)
    {
      var run;
      ok, run := DiskRead(sector, 1);
      data := run[0];
    }

    // ---------------------------------------------------------------- sync_window and move_window

    method SyncWindow() returns (res: FResult)
      requires Valid()
      modifies this`disk, this`wflag, this`faults
      ensures Valid() && Logical() == old(Logical())
      ensures res in {Ok, DiskErr} && (res == Ok ==> !wflag) && (!old(wflag) ==> res == Ok && disk == old(disk))
      ensures old(Healthy()) ==> Healthy() && res == Ok
      ensures old(Healthy()) && old(CopiesAgree()) ==> CopiesAgree()
    {
      hide Overlay, Healthy, AgreeExcept;
      res := Ok;
      if wflag {
        ghost var was := disk;
        res := WriteBack();
        OverlayKept(geo, was, disk, winsect, win);
      }
    }

    /** Writes the dirty window out. */
    method WriteBack() returns (res: FResult)
      requires Valid() && wflag
      modifies this`disk, this`wflag, this`faults
      ensures |disk| == geo.total && res in {Ok, DiskErr}
      ensures if res == Ok then !wflag && disk[winsect] == win else wflag
      ensures forall s :: 0 <= s < geo.total && s != winsect && !geo.InMirror(s) ==> disk[s] == old(disk)[s]
      ensures old(Healthy()) ==> Healthy() && res == Ok
      ensures old(Healthy()) && AgreeExcept(geo, old(disk), winsect) ==> AgreeExcept(geo, disk, NOSECT)
    {
      hide Healthy;
      res := Ok;
      ghost var was := disk;
      var wsect := winsect;
      var ok := WriteSector(wsect, win);
      if !ok {
        res := DiskErr;
      } else {
        wflag := false;
        InFatModulo(geo, wsect);
        if (wsect - geo.fatbase) % TWO32 < geo.fsize {
          Reflect(wsect);
        }
        if old(Healthy()) && AgreeExcept(geo, was, winsect) {
          CopiesFlushed(geo, was, disk, winsect, winsect);
        }
      }
      hide AgreeExcept;
    }

    /** Copies the flushed sector into the other FATs; the outcome of these writes is ignored. */
    method Reflect(sector: nat)
      requires geo.Valid() && |disk| == geo.total && geo.InFat(sector)
      modifies this`disk, this`faults
      ensures |disk| == geo.total
      ensures forall s :: 0 <= s < geo.total && !(geo.InMirror(s) && geo.Home(s) == sector) ==> disk[s] == old(disk)[s]
      ensures old(Healthy()) ==> Healthy()
      ensures old(Healthy()) ==> forall s :: 0 <= s < geo.total && geo.InMirror(s) && geo.Home(s) == sector ==> disk[s] == win
    {
      var wsect, nf := sector, geo.nFats;
      while nf >= 2
        invariant 1 <= nf <= geo.nFats && wsect == (if nf == geo.nFats then sector else sector + geo.fsize)
        invariant |disk| == geo.total && (old(Healthy()) ==> Healthy())
        invariant forall s :: 0 <= s < geo.total && !(geo.InMirror(s) && geo.Home(s) == sector) ==> disk[s] == old(disk)[s]
        invariant old(Healthy()) && nf < geo.nFats ==> disk[sector + geo.fsize] == win
      {
        wsect := wsect + geo.fsize;
        var ok := WriteSector(wsect, win);
        nf := nf - 1;
      }
    }

    method MoveWindow(sector: u32) returns (res: FResult)
      requires Valid() && !geo.InMirror(sector)
      modifies this`disk, this`winsect, this`win, this`wflag, this`faults
      ensures Valid() && Logical() == old(Logical())
      ensures res in {Ok, DiskErr}
      ensures res == Ok ==> winsect == sector && (sector < geo.total || sector == old(winsect) == NOSECT)
      ensures res == Ok && sector < geo.total ==> win == Logical()[sector]
      ensures res == DiskErr ==> winsect == NOSECT || (winsect == old(winsect) && win == old(win))
      ensures old(Healthy()) ==> Healthy() && (res == Ok <==> sector < geo.total || sector == old(winsect))
      ensures old(Healthy()) && old(CopiesAgree()) ==> CopiesAgree()
    {
      res := Ok;
      if sector != winsect {
        res := SyncWindow();
        if res == Ok {
          var target: u32 := sector;
          var ok;
          ok, win := ReadSector(sector);
          if !ok {
            target := NOSECT;
            res := DiskErr;
          }
          winsect := target;
        }
      }
    }

    // ---------------------------------------------------------------- sectors the window does not hold

    /** Reads data sectors past the window. */
    method DataRead(sector: nat, count: nat) returns (ok: bool, data: seq<Sector>)
      requires Valid() && geo.database <= sector && sector + count <= geo.total && !(sector <= winsect < sector + count)
      modifies this`faults
      ensures |data| == count && (ok ==> data == Logical()[sector..sector + count])
      ensures old(Healthy()) ==> Healthy() && ok
    {
      ok, data := DiskRead(sector, count);
    }

    /** Writes data sectors past the window. */
    method DataWrite(sector: nat, data: seq<Sector>) returns (ok: bool)
      requires Valid() && geo.database <= sector && sector + |data| <= geo.total && !(sector <= winsect < sector + |data|)
      modifies this`disk, this`faults
      ensures Valid()
      ensures ok ==> Logical()[sector..sector + |data|] == data
      ensures forall s :: 0 <= s < geo.total && !(sector <= s < sector + |data|) ==> Logical()[s] == old(Logical())[s]
      ensures old(Healthy()) ==> Healthy() && ok
      ensures old(CopiesAgree()) ==> CopiesAgree()
    {
      hide Healthy;
      ghost var was := disk;
      ok := DiskWrite(sector, data);
      OverlayWritten(geo, was, disk, winsect, win, sector, |data|);
      if ok {
        assert forall s :: sector <= s < sector + |data| ==> disk[s] == disk[sector..sector + |data|][s - sector];
      }
    }

    /** With nothing dirty and the copies in step, the physical disk is the logical one. */
    lemma FlushedDisk()
      requires Valid() && !wflag && CopiesAgree()
      ensures disk == Logical()
    {
      forall s | 0 <= s < geo.total
        ensures disk[s] == Logical()[s]
      {
        if geo.InMirror(s) {
          assert disk[s] == disk[geo.Home(s)];
        }
      }
    }
  }

  /** The source compares `wsect - fatbase` as unsigned 32-bit numbers. */
  lemma InFatModulo(g: Geometry, s: u32)
    requires g.Valid()
    ensures ((s - g.fatbase) % TWO32 < g.fsize) <==> g.InFat(s)
  {
    if s < g.fatbase {
      DivUnique(s - g.fatbase, TWO32, -1, s - g.fatbase + TWO32);
    } else {
      DivUnique(s - g.fatbase, TWO32, 0, s - g.fatbase);
    }
  }
}
