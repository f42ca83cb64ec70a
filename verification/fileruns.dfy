/** Runs of f_read, f_write and f_lseek as a byte sequence with a cursor. */
module FileRuns {
  import opened Words
  import opened Volume
  import opened FatTable
  import opened FatChain
  import opened FileLayout
  import opened FileView
  import opened FileCursor
  import opened FatFile

  /** The bytes, the cursor, and whether the disk has no free cluster. */
  datatype FileState = FileState(bytes: seq<u8>, pos: nat, full: bool)

  /** What a call did, as its caller sees it: the bytes read, the part written, where the cursor went, or nothing. */
  datatype FileOp = DidRead(out: seq<u8>) | DidWrite(w: seq<u8>) | DidSeek(to: nat) | Refused

  /** What that does to the byte sequence and the cursor.  A full disk stays full. */
  ghost predicate Step(a: FileState, op: FileOp, b: FileState) {
    && a.pos <= |a.bytes| && (a.full ==> b.full)
    && match op
       case DidRead(out) =>
         && a.pos + |out| <= |a.bytes| && out == a.bytes[a.pos..a.pos + |out|]
         && b.bytes == a.bytes && b.pos == a.pos + |out|
       case DidWrite(w) => b.bytes == Spliced(a.bytes, a.pos, w) && b.pos == a.pos + |w|
       case DidSeek(to) =>
         && b.pos == to && |b.bytes| == (if |a.bytes| < to then to else |a.bytes|)
         && b.bytes[..|a.bytes|] == a.bytes
       case Refused => b.bytes == a.bytes && b.pos == a.pos
  }

  datatype Request = DoRead(count: u32) | DoWrite(data: seq<u8>) | DoSeek(ofs: u32)

  /** How a file was opened. */
  datatype Access = Access(read: bool, write: bool)

  /**
   What each request must be answered with in state a: all it asks for, or as much as there is.  A write or a
   seek may fall short only past the end of the file, and only if it leaves the disk full.
   */
  ghost predicate Answers(request: Request, op: FileOp, a: FileState, b: FileState, access: Access) {
    match request
    case DoRead(count) =>
      if !access.read then op == Refused
      else op.DidRead? && |op.out| == if a.pos + count < |a.bytes| then count else |a.bytes| - a.pos
    case DoWrite(data) =>
      if !access.write then op == Refused
      else if a.pos + |data| >= TWO32 then op == DidWrite([])
      else op.DidWrite? && (op.w == data || (op.w <= data && b.full && |a.bytes| <= a.pos + |op.w|))
    case DoSeek(ofs) =>
      op.DidSeek? &&
      var target := if access.write || ofs < |a.bytes| then ofs else |a.bytes|;
      op.to == target || (|a.bytes| <= op.to < target && b.full && access.write)
  }

  /** A request answered with a step. */
  ghost predicate Served(a: FileState, request: Request, op: FileOp, b: FileState, access: Access) {
    Step(a, op, b) && Answers(request, op, a, b, access)
  }

  /** Each request in turn, as far as they were served. */
  ghost predicate AllServed(requests: seq<Request>, ops: seq<FileOp>, run: seq<FileState>, access: Access) {
    && |ops| <= |requests| && |run| == |ops| + 1
    && forall k :: 0 <= k < |ops| ==> Served(run[k], requests[k], ops[k], run[k + 1], access)
  }

  ghost predicate Run(run: seq<FileState>, ops: seq<FileOp>) {
    |run| == |ops| + 1 && forall k :: 0 <= k < |ops| ==> Step(run[k], ops[k], run[k + 1])
  }

  /** The byte last written at i, starting from cursor positions in run; was if none was. */
  ghost function LastWritten(run: seq<FileState>, ops: seq<FileOp>, i: nat, was: u8): u8
    requires |run| == |ops| + 1
    decreases |ops|
  {
    if ops == [] then was
    else
      var n := |ops| - 1;
      var before := LastWritten(run[..n + 1], ops[..n], i, was);
      if ops[n].DidWrite? && run[n].pos <= i < run[n].pos + |ops[n].w| then ops[n].w[i - run[n].pos] else before
  }

  /** After any run, a byte the file had at the start is the last one written over it, or what it was. */
  lemma {:induction false} BytesRememberLastWrite(run: seq<FileState>, ops: seq<FileOp>, i: nat)
    requires Run(run, ops) && i < |run[0].bytes|
    ensures i < |run[|ops|].bytes| && run[|ops|].bytes[i] == LastWritten(run, ops, i, run[0].bytes[i])
    decreases |ops|
  {
    hide Step;
    if ops != [] {
      var n := |ops| - 1;
      var run', ops' := run[..n + 1], ops[..n];
      assert forall k :: 0 <= k < n ==> Step(run[k], ops[k], run[k + 1]) ==> Step(run'[k], ops'[k], run'[k + 1]);
      BytesRememberLastWrite(run', ops', i);
      StepByte(run[n], ops[n], run[n + 1], i);
    }
  }

  lemma StepByte(a: FileState, op: FileOp, b: FileState, i: nat)
    requires Step(a, op, b) && i < |a.bytes|
    ensures i < |b.bytes|
    ensures b.bytes[i] == if op.DidWrite? && a.pos <= i < a.pos + |op.w| then op.w[i - a.pos] else a.bytes[i]
  {
    if op.DidSeek? {
      assert b.bytes[..|a.bytes|][i] == a.bytes[i];
    }
  }

  /**
   Writing, going back and reading returns what was written: all of the data unless the write fills the disk,
   and then the part that it reported.
   */
  lemma ReadBack(data: seq<u8>, p: u32, n: u32, requests: seq<Request>, ops: seq<FileOp>, run: seq<FileState>)
    requires |ops| == 3 && AllServed(requests, ops, run, Access(true, true))
    requires requests == [DoWrite(data), DoSeek(p), DoRead(n)] && p == run[0].pos && p + |data| < TWO32 && |data| <= n
    ensures ops[0].DidWrite? && ops[0].w <= data && (!run[1].full ==> ops[0].w == data)
    ensures ops[2].DidRead? && ops[0].w <= ops[2].out && run[3].bytes == run[1].bytes
  {
    var a, b, c, d, w, out := run[0], run[1], run[2], run[3], ops[0].w, ops[2].out;
    assert Served(a, requests[0], ops[0], b, Access(true, true));
    assert Served(b, requests[1], ops[1], c, Access(true, true));
    assert Served(c, requests[2], ops[2], d, Access(true, true));
    assert c.bytes == c.bytes[..|b.bytes|];
    assert b.bytes[a.pos..a.pos + |w|] == w;
    assert out[..|w|] == w;
  }

  // ---------------------------------------------------------------- the file operations make such runs

  ghost function StateOf(f: Fil): FileState
    requires f.OnDisk()
    reads f, f.fs
  {
    FileState(f.Contents(), f.fptr, Full(Fat(f.fs.geo, f.fs.Logical())))
  }

  function AccessOf(f: Fil): Access {
    Access(f.canRead, f.canWrite)
  }

  /** The table was full before the file grew, if it was. */
  lemma FullStays(f: Fil, v: View)
    requires f.Valid() && f.err == Ok && v.Ok() && v.g == f.fs.geo && v.Places() <= f.Places()
    requires OthersKept(v.g, v.l, f.fs.Logical(), f.Places())
    ensures Full(Fat(v.g, v.l)) ==> Full(Fat(v.g, f.fs.Logical()))
  {
    hide Crowded, OthersKept, Full, Fat, Sectors, Fatfs.Logical, Fil.Cursor, Whole;
    CrowdedIsFull(v);
    CrowdedIsFull(f.V());
    if Crowded(v.g, v.l, v.Places()) {
      CrowdedStays(v.g, v.l, f.fs.Logical(), v.Places(), f.Places());
    }
  }

  lemma ReadServed(a: FileState, count: u32, out: seq<u8>, b: FileState, access: Access)
    requires a.pos <= |a.bytes| && access.read && b.bytes == a.bytes && (a.full ==> b.full)
    requires b.pos == (if a.pos + count < |a.bytes| then a.pos + count else |a.bytes|) && out == a.bytes[a.pos..b.pos]
    ensures Served(a, DoRead(count), DidRead(out), b, access)
  {
  }

  lemma WriteServed(a: FileState, data: seq<u8>, n: nat, b: FileState, access: Access)
    requires a.pos <= |a.bytes| && access.write && n <= |data| && (a.full ==> b.full)
    requires b.bytes == Spliced(a.bytes, a.pos, data[..n]) && b.pos == a.pos + n
    requires a.pos + |data| >= TWO32 ==> n == 0
    requires a.pos + |data| < TWO32 && n < |data| ==> b.full && |a.bytes| <= a.pos + n
    ensures Served(a, DoWrite(data), DidWrite(data[..n]), b, access)
  {
  }

  lemma SeekServed(a: FileState, ofs: u32, b: FileState, access: Access)
    requires a.pos <= |a.bytes| && (a.full ==> b.full)
    requires
      var target := if access.write || ofs < |a.bytes| then ofs else |a.bytes|;
      b.pos == target || (|a.bytes| <= b.pos < target && b.full && access.write)
    requires |b.bytes| == (if |a.bytes| < b.pos then b.pos else |a.bytes|) && b.bytes[..|a.bytes|] == a.bytes
    ensures Served(a, DoSeek(ofs), DidSeek(b.pos), b, access)
  {
  }

  lemma Denial(a: FileState, request: Request, b: FileState, access: Access)
    requires a.pos <= |a.bytes| && ((request.DoRead? && !access.read) || (request.DoWrite? && !access.write))
    requires b.bytes == a.bytes && b.pos == a.pos && (a.full ==> b.full)
    ensures Served(a, request, Refused, b, access)
  {
  }

  /** The cursor lies in the file. */
  lemma PositionOf(f: Fil)
    requires f.Valid() && f.err == Ok
    ensures StateOf(f) == FileState(f.Contents(), f.fptr, Full(Fat(f.fs.geo, f.fs.Logical())))
    ensures f.fptr <= |f.Contents()| == f.fsize && InRange(f.fs.geo, f.chain) && f.Places() == Sectors(f.fs.geo, f.chain)
  {
  }

  /**
   One request; an operation that fails leaves the file dead.  On a healthy disk only a damaged table makes one fail,
   and then never a read.
   */
  method Serve(f: Fil, request: Request) returns (res: FResult, op: FileOp)
    requires f.Valid() && f.err == Ok && (request.DoWrite? ==> |request.data| < TWO32)
    modifies f, f.fs
    ensures f.Valid() && res in {Ok, Denied, DiskErr, IntErr}
    ensures f.err == if res == Denied then Ok else res
    ensures f.err == Ok ==> Served(old(StateOf(f)), request, op, StateOf(f), AccessOf(f))
    ensures res == Denied <==> f.err == Ok && op == Refused
    ensures res == IntErr ==> !request.DoRead?
    ensures res != DiskErr && old(Sane(f.fs)) ==> Sane(f.fs) && res != IntErr
    ensures old(f.fs.Healthy()) ==> f.fs.Healthy() && res != DiskErr
  {
    hide View.Placed, View.Data, View.Ok, Fatfs.Logical, Fatfs.Healthy, Fat, Flatten, OthersKept, Sectors, Full, Fil.Contents, CursorAt;
    hide Step, Answers, Served, StateOf, Spliced, Damaged;
    ghost var a, v := StateOf(f), f.V();
    PositionOf(f);
    op := Refused;
    match request {
      case DoRead(count) =>
        var out;
        res, out := f.Read(count);
        if res == Ok {
          op := DidRead(out);
        }
      case DoWrite(data) =>
        var n;
        res, n := f.Write(data);
        if res == Ok {
          op := DidWrite(data[..n]);
        }
      case DoSeek(ofs) =>
        res := f.Seek(ofs);
        op := DidSeek(f.fptr);
    }
    if f.err == Ok {
      PositionOf(f);
      FullStays(f, v);
      ghost var b := StateOf(f);
      match request {
        case DoRead(count) =>
          if f.canRead {
            ReadServed(a, count, op.out, b, AccessOf(f));
          } else {
            Denial(a, request, b, AccessOf(f));
          }
        case DoWrite(data) =>
          if f.canWrite {
            WriteServed(a, data, |op.w|, b, AccessOf(f));
          } else {
            Denial(a, request, b, AccessOf(f));
          }
        case DoSeek(ofs) =>
          SeekServed(a, ofs, b, AccessOf(f));
      }
    }
  }

  /**
   Any list of requests, up to the first one that fails: none does on a healthy disk with an undamaged table.
   */
  method ServeAll(f: Fil, requests: seq<Request>) returns (res: FResult, ops: seq<FileOp>, ghost run: seq<FileState>)
    requires f.Valid() && f.err == Ok
    requires forall k :: 0 <= k < |requests| ==> requests[k].DoWrite? ==> |requests[k].data| < TWO32
    modifies f, f.fs
    ensures f.Valid() && res in {Ok, DiskErr, IntErr} && f.err == res
    ensures AllServed(requests, ops, run, AccessOf(f)) && Run(run, ops) && run[0] == old(StateOf(f))
    ensures res == Ok ==> |ops| == |requests| && run[|ops|] == StateOf(f)
    ensures res != Ok ==> |ops| < |requests| && (res == IntErr ==> !old(Sane(f.fs)) && !requests[|ops|].DoRead?)
    ensures old(f.fs.Healthy()) ==> f.fs.Healthy() && res != DiskErr
    ensures old(f.fs.Healthy() && Sane(f.fs)) ==> res == Ok && Sane(f.fs)
  {
    hide Served, View.Placed, View.Data, View.Ok, Fatfs.Logical, Fatfs.Healthy, Fat, Fil.Contents, Sane, StateOf, Fil.Cursor;
    res, ops, run := Ok, [], [StateOf(f)];
    ghost var access := AccessOf(f);
    while |ops| < |requests|
      invariant |ops| <= |requests| && res == Ok && f.Valid() && f.err == Ok
      invariant old(f.fs.Healthy()) ==> f.fs.Healthy()
      invariant old(Sane(f.fs)) ==> Sane(f.fs)
      invariant AllServed(requests, ops, run, access) && run[0] == old(StateOf(f)) && run[|ops|] == StateOf(f)
      decreases |requests| - |ops|
    {
      var op;
      res, op := Serve(f, requests[|ops|]);
      if f.err != Ok {
        ServedIsRun(requests, ops, run, access);
        return;
      }
      res := Ok;
      ghost var b := StateOf(f);
      ServedGrows(requests, ops, run, access, op, b);
      ops, run := ops + [op], run + [b];
    }
    ServedIsRun(requests, ops, run, access);
  }

  lemma ServedGrows(requests: seq<Request>, ops: seq<FileOp>, run: seq<FileState>, access: Access, op: FileOp, b: FileState)
    requires AllServed(requests, ops, run, access) && |ops| < |requests| && Served(run[|ops|], requests[|ops|], op, b, access)
    ensures AllServed(requests, ops + [op], run + [b], access)
  {
    hide Served;
    var run', ops' := run + [b], ops + [op];
    forall k | 0 <= k < |ops'|
      ensures Served(run'[k], requests[k], ops'[k], run'[k + 1], access)
    {
      if k < |ops| {
        assert Served(run[k], requests[k], ops[k], run[k + 1], access);
      }
    }
  }

  /** In particular a run of the byte sequence. */
  lemma ServedIsRun(requests: seq<Request>, ops: seq<FileOp>, run: seq<FileState>, access: Access)
    requires AllServed(requests, ops, run, access)
    ensures Run(run, ops)
  {
    hide Step, Answers;
    forall k | 0 <= k < |ops|
      ensures Step(run[k], ops[k], run[k + 1])
    {
      assert Served(run[k], requests[k], ops[k], run[k + 1], access);
    }
  }
}
