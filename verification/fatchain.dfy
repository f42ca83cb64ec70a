/** remove_chain and create_chain: the cluster allocator, over the FAT as a sequence of entries. */
module FatChain {
  import opened Basics
  import opened Words
  import opened Volume
  import opened FatTable

  const EOC: int := 0x0FFF_FFFF

  // ---------------------------------------------------------------- counting

  /** Free entries among those from 2 up to k. */
  function CountFree(fat: seq<nat>, k: nat): (n: nat)
    requires k <= |fat|
    ensures n <= k
  {
    if k <= 2 then 0 else CountFree(fat, k - 1) + Bit(fat[k - 1] == 0)
  }

  /** Free entries are the zero ones of clusters. */
  lemma {:induction false} CountIsSize(fat: seq<nat>, k: nat)
    requires k <= |fat|
    ensures CountFree(fat, k) == |FreeClusters(fat, k)|
  {
    if k > 0 {
      CountIsSize(fat, k - 1);
      var s := FreeClusters(fat, k - 1);
      assert FreeClusters(fat, k) == if k - 1 >= 2 && fat[k - 1] == 0 then s + {k - 1} else s;
    } else {
      assert FreeClusters(fat, k) == {};
    }
  }

  ghost function FreeClusters(fat: seq<nat>, k: nat): set<int>
    requires k <= |fat|
  {
    set c | 2 <= c < k && fat[c] == 0
  }

  lemma {:induction false} CountUpdated(fat: seq<nat>, k: nat, c: nat, v: nat)
    requires k <= |fat| && 2 <= c < |fat|
    ensures CountFree(fat[c := v], k) + Bit(c < k && fat[c] == 0) == CountFree(fat, k) + Bit(c < k && v == 0)
  {
    if k > 2 {
      CountUpdated(fat, k - 1, c, v);
    }
  }

  lemma {:induction false} CountSome(fat: seq<nat>, k: nat, c: nat)
    requires 2 <= c < k <= |fat| && fat[c] == 0
    ensures CountFree(fat, k) >= 1
  {
    if c < k - 1 {
      CountSome(fat, k - 1, c);
    }
  }

  lemma {:induction false} CountBound(fat: seq<nat>, k: nat)
    requires 2 <= k <= |fat|
    ensures CountFree(fat, k) <= k - 2
  {
    if k > 2 {
      CountBound(fat, k - 1);
    }
  }

  /** Entries in use: what remove_chain's loop has left to free. */
  function InUse(fat: seq<nat>): (n: nat) {
    if |fat| <= 2 then 0
    else
      CountBound(fat, |fat|);
      |fat| - 2 - CountFree(fat, |fat|)
  }

  lemma FreeingShrinks(fat: seq<nat>, c: nat)
    requires 2 <= c < |fat| && fat[c] != 0
    ensures InUse(fat[c := 0]) < InUse(fat)
    ensures CountFree(fat[c := 0], |fat|) == CountFree(fat, |fat|) + 1
  {
    CountUpdated(fat, |fat|, c, 0);
  }

  // ---------------------------------------------------------------- chains

  /** The entry of s[i] links to s[i + 1], or to no cluster if s[i] is the last. */
  ghost predicate LinkAt(fat: seq<nat>, s: seq<nat>, i: nat)
    requires i < |s| && s[i] < |fat|
  {
    if i + 1 < |s| then fat[s[i]] == s[i + 1] else fat[s[i]] >= |fat|
  }

  /** s lists a whole chain. */
  ghost predicate IsChain(fat: seq<nat>, s: seq<nat>) {
    && s != []
    && (forall i :: 0 <= i < |s| ==> 2 <= s[i] < |fat| && LinkAt(fat, s, i))
    && Distinct(s)
  }

  /** What remove_chain visits from c: it clears each entry before following the link. */
  function Walk(fat: seq<nat>, c: nat): seq<nat>
    decreases InUse(fat)
  {
    if !(2 <= c < |fat|) || fat[c] < 2 then []
    else
      FreeingShrinks(fat, c);
      [c] + Walk(fat[c := 0], fat[c])
  }

  predicate Used(fat: seq<nat>, c: nat) {
    2 <= c < |fat| && fat[c] >= 2
  }

  ghost predicate StepAt(fat: seq<nat>, path: seq<nat>, i: nat)
    requires i < |path|
  {
    i > 0 ==> path[i - 1] < |fat| && path[i] == fat[path[i - 1]]
  }

  /** A path of links through clusters in use. */
  ghost predicate Follows(fat: seq<nat>, path: seq<nat>) {
    path != [] && forall i :: 0 <= i < |path| ==> Used(fat, path[i]) && StepAt(fat, path, i)
  }

  ghost predicate Reaches(fat: seq<nat>, c: nat, d: nat) {
    exists path :: Follows(fat, path) && path[0] == c && path[|path| - 1] == d
  }

  /** w is a path from c without repetition, and the link out of its last cluster leads back into it or to nothing in use. */
  ghost predicate MaximalPath(fat: seq<nat>, c: nat, w: seq<nat>) {
    if w == [] then !Used(fat, c)
    else Follows(fat, w) && w[0] == c && Distinct(w) && StopsAt(fat, w, w[|w| - 1])
  }

  /** The link out of d leads back into w or to nothing in use. */
  ghost predicate StopsAt(fat: seq<nat>, w: seq<nat>, d: nat) {
    d < |fat| && (fat[d] in w || !Used(fat, fat[d]))
  }

  lemma {:induction false} WalkShape(fat: seq<nat>, c: nat)
    ensures MaximalPath(fat, c, Walk(fat, c))
    decreases InUse(fat)
  {
    if Used(fat, c) {
      FreeingShrinks(fat, c);
      WalkShape(fat[c := 0], fat[c]);
      PathGrows(fat, c, Walk(fat[c := 0], fat[c]));
    }
  }

  lemma TailStep(fat: seq<nat>, c: nat, v: seq<nat>, i: nat)
    requires Used(fat, c) && Follows(fat[c := 0], v) && v[0] == fat[c] && i < |v|
    ensures v[i] != c && Used(fat, v[i]) && StepAt(fat, [c] + v, i + 1)
  {
    var fat' := fat[c := 0];
    assert Used(fat', v[i]) && StepAt(fat', v, i);
    if i > 0 {
      assert Used(fat', v[i - 1]);
    }
  }

  lemma TailFollows(fat: seq<nat>, c: nat, v: seq<nat>)
    requires Used(fat, c) && Follows(fat[c := 0], v) && v[0] == fat[c]
    ensures Follows(fat, [c] + v)
  {
    var w := [c] + v;
    forall i | 0 <= i < |w|
      ensures Used(fat, w[i]) && StepAt(fat, w, i)
    {
      if i > 0 {
        TailStep(fat, c, v, i - 1);
      }
    }
  }

  lemma TailDistinct(fat: seq<nat>, c: nat, v: seq<nat>)
    requires Used(fat, c) && Follows(fat[c := 0], v) && v[0] == fat[c] && Distinct(v)
    ensures Distinct([c] + v) && v[|v| - 1] != c && v[|v| - 1] < |fat|
  {
    hide StepAt;
    forall i | 0 <= i < |v|
      ensures v[i] != c && v[i] < |fat|
    {
      TailStep(fat, c, v, i);
    }
  }

  lemma PathGrows(fat: seq<nat>, c: nat, v: seq<nat>)
    requires Used(fat, c) && MaximalPath(fat[c := 0], fat[c], v)
    ensures MaximalPath(fat, c, [c] + v)
  {
    if v == [] {
      assert [c] + v == [c] && StepAt(fat, [c], 0) && StopsAt(fat, [c], c);
    } else {
      TailFollows(fat, c, v);
      TailDistinct(fat, c, v);
      TailStops(fat, c, v, v[|v| - 1]);
      hide Used, StepAt, Distinct, Follows, StopsAt;
      var w := [c] + v;
      assert w[|w| - 1] == v[|v| - 1];
    }
  }

  lemma TailStops(fat: seq<nat>, c: nat, v: seq<nat>, d: nat)
    requires c < |fat| && d != c && StopsAt(fat[c := 0], v, d)
    ensures StopsAt(fat, [c] + v, d)
  {
  }

  lemma PrefixFollows(fat: seq<nat>, path: seq<nat>, n: nat)
    requires Follows(fat, path) && 0 < n <= |path|
    ensures Follows(fat, path[..n])
  {
    hide Used;
    forall i | 0 <= i < n
      ensures Used(fat, path[..n][i]) && StepAt(fat, path[..n], i)
    {
      assert Used(fat, path[i]) && StepAt(fat, path, i);
    }
  }

  lemma {:induction false} PathStaysInside(fat: seq<nat>, c: nat, w: seq<nat>, path: seq<nat>)
    requires MaximalPath(fat, c, w) && Follows(fat, path) && path[0] == c
    ensures path[|path| - 1] in w
    decreases |path|
  {
    assert Used(fat, path[0]);
    var n := |path| - 1;
    if n > 0 {
      PrefixFollows(fat, path, n);
      PathStaysInside(fat, c, w, path[..n]);
      assert StepAt(fat, path, n) && Used(fat, path[n]);
      NextInside(fat, c, w, path[n - 1]);
    }
  }

  lemma NextInside(fat: seq<nat>, c: nat, w: seq<nat>, d: nat)
    requires MaximalPath(fat, c, w) && d in w
    ensures Used(fat, d) && StopsAt(fat, w, d)
  {
    var i :| 0 <= i < |w| && w[i] == d;
    assert Used(fat, w[i]);
    if i + 1 < |w| {
      assert StepAt(fat, w, i + 1);
    }
  }

  lemma PathPrefix(fat: seq<nat>, c: nat, w: seq<nat>, i: nat)
    requires MaximalPath(fat, c, w) && i < |w|
    ensures Reaches(fat, c, w[i])
  {
    hide Used, StepAt, Distinct;
    PrefixFollows(fat, w, i + 1);
    var path := w[..i + 1];
    assert path[0] == c && path[|path| - 1] == w[i];
  }

  /** The clusters visited are exactly those reachable from c, cyclic links or not. */
  lemma WalkIsReachable(fat: seq<nat>, c: nat, d: nat)
    ensures d in Walk(fat, c) <==> Reaches(fat, c, d)
  {
    WalkShape(fat, c);
    var w := Walk(fat, c);
    if Reaches(fat, c, d) {
      var path :| Follows(fat, path) && path[0] == c && path[|path| - 1] == d;
      PathStaysInside(fat, c, w, path);
    }
    if d in w {
      var i :| 0 <= i < |w| && w[i] == d;
      PathPrefix(fat, c, w, i);
    }
  }

  /** On a chain the walk is the chain. */
  lemma {:induction false} WalkOfChain(fat: seq<nat>, s: seq<nat>)
    requires IsChain(fat, s)
    ensures Walk(fat, s[0]) == s
    decreases |s|
  {
    var fat', t := fat[s[0] := 0], s[1..];
    assert LinkAt(fat, s, 0);
    forall i | 0 <= i < |t|
      ensures 2 <= t[i] < |fat'| && LinkAt(fat', t, i)
    {
      assert t[i] == s[i + 1] && LinkAt(fat, s, i + 1);
    }
    if t != [] {
      WalkOfChain(fat', t);
    }
  }

  /** A walk of a chain stops at its end mark. */
  lemma {:induction false} StopOfChain(fat: seq<nat>, s: seq<nat>)
    requires IsChain(fat, s)
    ensures Stop(fat, s[0]) >= |fat|
    decreases |s|
  {
    var fat', t := fat[s[0] := 0], s[1..];
    assert LinkAt(fat, s, 0);
    forall i | 0 <= i < |t|
      ensures 2 <= t[i] < |fat'| && LinkAt(fat', t, i)
    {
      assert t[i] == s[i + 1] && LinkAt(fat, s, i + 1);
    }
    if t != [] {
      StopOfChain(fat', t);
    }
  }

  // ---------------------------------------------------------------- remove_chain

  /** fat with the entries of s cleared. */
  ghost predicate Cleared(fat: seq<nat>, fat': seq<nat>, s: seq<nat>) {
    |fat'| == |fat| && forall d :: 0 <= d < |fat| ==> fat'[d] == if d in s then 0 else fat[d]
  }

  /** Where a walk from c stops. */
  function Stop(fat: seq<nat>, c: nat): nat
    decreases InUse(fat)
  {
    if !Used(fat, c) then c
    else
      FreeingShrinks(fat, c);
      Stop(fat[c := 0], fat[c])
  }

  lemma ClearOne(fat: seq<nat>, f: seq<nat>, s: seq<nat>, c: nat)
    requires Cleared(fat, f, s) && c < |fat|
    ensures Cleared(fat, f[c := 0], s + [c])
  {
  }

  lemma WalkStep(fat: seq<nat>, s: seq<nat>, f: seq<nat>, c: nat, w: seq<nat>)
    requires Used(f, c) && w == s + Walk(f, c)
    ensures w == (s + [c]) + Walk(f[c := 0], f[c]) && c in w
    ensures Stop(f, c) == Stop(f[c := 0], f[c])
  {
    FreeingShrinks(f, c);
    assert Walk(f, c) == [c] + Walk(f[c := 0], f[c]);
    assert w[|s|] == c;
  }

  /** fsi_flag once the counts have changed. */
  function Raised(fsiFlag: u8): (r: u8)
    ensures r % 2 == 1 && r / 2 == fsiFlag / 2
  {
    OrBit(fsiFlag, true)
  }

  /** free_clust counts the free entries. */
  ghost predicate CountRight(fs: Fatfs)
    requires fs.Valid()
    reads fs
  {
    fs.freeClust == CountFree(Fat(fs.geo, fs.Logical()), fs.geo.nFatent)
  }

  method RemoveChain(fs: Fatfs, start: nat) returns (res: FResult)
    requires fs.Valid()
    modifies fs`disk, fs`winsect, fs`win, fs`wflag, fs`faults, fs`freeClust, fs`fsiFlag
    ensures fs.Valid() && SameData(fs.geo, old(fs.Logical()), fs.Logical()) && res in {Ok, IntErr, DiskErr}
    ensures !(2 <= start < fs.geo.nFatent) ==> res == IntErr && fs.Logical() == old(fs.Logical())
    ensures
      var fat, fat' := Fat(fs.geo, old(fs.Logical())), Fat(fs.geo, fs.Logical());
      && (res != DiskErr ==> Cleared(fat, fat', Walk(fat, start)))
      && (forall d :: 0 <= d < |fat| && d !in Walk(fat, start) ==> fat'[d] == fat[d])
      && (2 <= start < |fat| && res != DiskErr ==>
           (res == IntErr <==> Stop(fat, start) < |fat| && fat[Stop(fat, start)] == 1))
    ensures res != DiskErr && old(CountRight(fs)) ==> CountRight(fs)
    ensures if fs.freeClust == old(fs.freeClust) then fs.fsiFlag in {old(fs.fsiFlag), Raised(old(fs.fsiFlag))}
            else old(fs.freeClust) != NOSECT && fs.fsiFlag == Raised(old(fs.fsiFlag))
    ensures old(fs.Healthy()) ==> fs.Healthy() && res != DiskErr
    ensures old(fs.Healthy()) && old(fs.CopiesAgree()) ==> fs.CopiesAgree()
  {
    hide Image, SameData, Overlay, Fatfs.CopiesAgree, Fatfs.Healthy, Fat, Walk, Stop, CountFree, InUse, Cleared;
    ghost var before := fs.Logical();
    ghost var fat := Fat(fs.geo, before);
    SameDataSelf(fs.geo, before);
    StartOfWalk(fat, start);
    if start < 2 || start >= fs.geo.nFatent {
      res := IntErr;
      return;
    }
    res := Ok;
    var clst := start;
    ghost var done: seq<nat>, f: seq<nat> := [], fat;
    while clst < fs.geo.nFatent
      invariant fs.Valid() && SameData(fs.geo, before, fs.Logical()) && f == Fat(fs.geo, fs.Logical())
      invariant 2 <= clst && res == Ok
      invariant Cleared(fat, f, done) && Walk(fat, start) == done + Walk(f, clst) && Stop(fat, start) == Stop(f, clst)
      invariant old(CountRight(fs)) ==> CountRight(fs)
      invariant (fs.freeClust == old(fs.freeClust) && fs.fsiFlag == old(fs.fsiFlag))
                || (old(fs.freeClust) != NOSECT && fs.fsiFlag == Raised(old(fs.fsiFlag)))
      invariant old(fs.Healthy()) ==> fs.Healthy()
      invariant old(fs.Healthy()) && old(fs.CopiesAgree()) ==> fs.CopiesAgree()
      decreases InUse(f)
    {
      var nxt := GetFat(fs, clst);
      if nxt == 0 { break; }
      if nxt == 1 {
        res := IntErr;
        break;
      }
      if nxt == NOSECT {
        res := DiskErr;
        OutsideWalk(fat, f, Fat(fs.geo, fs.Logical()), done, clst, Walk(fat, start));
        break;
      }
      WalkStep(fat, done, f, clst, Walk(fat, start));
      FreeingShrinks(f, clst);
      ClearOne(fat, f, done, clst);
      ghost var l := fs.Logical();
      res := PutFat(fs, clst, 0);
      SameDataTrans(fs.geo, before, l, fs.Logical());
      if res != Ok {
        OutsideWalk(fat, f, Fat(fs.geo, fs.Logical()), done, clst, Walk(fat, start));
        break;
      }
      if fs.freeClust != NOSECT {
        fs.freeClust := (fs.freeClust + 1) % TWO32;
        fs.fsiFlag := Raised(fs.fsiFlag);
      }
      done, f := done + [clst], f[clst := 0];
      clst := nxt;
    }
    if res != DiskErr {
      WalkDone(fat, start, f, done, clst);
    }
  }

  lemma OutsideWalk(fat: seq<nat>, f: seq<nat>, f': seq<nat>, s: seq<nat>, c: nat, w: seq<nat>)
    requires Cleared(fat, f, s) && s <= w && (c in w || f' == f) && |f'| == |fat|
    requires forall d :: 0 <= d < |fat| && d != c ==> f'[d] == f[d]
    ensures forall d :: 0 <= d < |fat| && d !in w ==> f'[d] == fat[d]
  {
    assert forall i :: 0 <= i < |s| ==> s[i] == w[i];
  }

  /** At the end of the loop everything reachable has been cleared. */
  lemma WalkDone(fat: seq<nat>, start: nat, f: seq<nat>, s: seq<nat>, c: nat)
    requires !Used(f, c) && 2 <= c && Cleared(fat, f, s) && Walk(fat, start) == s + Walk(f, c) && Stop(fat, start) == Stop(f, c)
    ensures Cleared(fat, f, Walk(fat, start)) && Stop(fat, start) == c
    ensures c < |fat| ==> (f[c] == 1 <==> fat[c] == 1)
  {
    assert Walk(fat, start) == s;
    WalkShape(fat, start);
    if c < |fat| && c in s {
      var i :| 0 <= i < |s| && s[i] == c;
      assert Used(fat, s[i]);
    }
  }

  lemma StartOfWalk(fat: seq<nat>, c: nat)
    ensures Cleared(fat, fat, []) && Walk(fat, c) == [] + Walk(fat, c)
    ensures !(2 <= c < |fat|) ==> Walk(fat, c) == []
  {
  }

  // ---------------------------------------------------------------- create_chain

  /** c comes after from and before to when clusters are taken in cyclic order, 2 following the last one. */
  predicate Between(from: nat, to: nat, c: nat) {
    if from < to then from < c < to else c > from || c < to
  }

  /** No entry searched between from and to is free or has the reserved value. */
  ghost predicate NoneFree(fat: seq<nat>, from: nat, to: nat) {
    forall c :: 2 <= c < |fat| && Between(from, to, c) ==> fat[c] > 1
  }

  /** The entry the search looks at after c, and after n steps. */
  function NextEntry(len: nat, c: nat): nat {
    if c + 1 < len then c + 1 else 2
  }

  function EntryAfter(len: nat, c: nat, n: nat): nat {
    if n == 0 then c else NextEntry(len, EntryAfter(len, c, n - 1))
  }

  /** That is: of the entries visited one after the other, round the end of the table, none before `to` is free or reserved. */
  lemma {:induction false} NoneFreeOnTheWay(fat: seq<nat>, from: nat, to: nat, n: nat)
    requires NoneFree(fat, from, to) && 3 <= |fat| && 1 <= from < |fat| && 2 <= to < |fat| && 0 < n
    requires forall m :: 1 <= m <= n ==> EntryAfter(|fat|, from, m) != to
    ensures 2 <= EntryAfter(|fat|, from, n) < |fat| && Between(from, to, EntryAfter(|fat|, from, n))
    ensures fat[EntryAfter(|fat|, from, n)] > 1
  {
    if n > 1 {
      NoneFreeOnTheWay(fat, from, to, n - 1);
    }
    assert EntryAfter(|fat|, from, n) != to;
  }

  ghost predicate Full(fat: seq<nat>) {
    forall c :: 2 <= c < |fat| ==> fat[c] != 0
  }

  /** A cluster has the reserved value 1, which no operation gives to one. */
  ghost predicate Damaged(fat: seq<nat>) {
    exists c :: 2 <= c < |fat| && fat[c] == 1
  }

  ghost predicate Sane(fs: Fatfs)
    requires fs.Valid()
    reads fs
  {
    !Damaged(Fat(fs.geo, fs.Logical()))
  }

  /** Linking a cluster does no damage. */
  lemma LinkedSane(g: Geometry, fat: seq<nat>, fat': seq<nat>, prev: nat, r: nat)
    requires g.Valid() && |fat| == g.nFatent && Linked(g, fat, fat', prev, r)
    ensures Damaged(fat') ==> Damaged(fat)
  {
    EndMark(g);
    if c :| 2 <= c < |fat'| && fat'[c] == 1 {
      assert fat[c] == 1;
    }
  }

  /** Where the search starts for a new chain. */
  function Hint(fs: Fatfs): nat
    reads fs`lastClust
  {
    if fs.lastClust == 0 || fs.lastClust >= fs.geo.nFatent then 1 else fs.lastClust
  }

  /** The entry r, free before, is now the end of a chain, linked after prev unless prev is 0. */
  ghost predicate Linked(g: Geometry, fat: seq<nat>, fat': seq<nat>, prev: nat, r: nat)
    requires g.Valid()
  {
    && 2 <= r < |fat| && fat[r] == 0 && prev < |fat|
    && fat' == if prev == 0 then fat[r := EOC % Width(g.fsType)] else fat[r := EOC % Width(g.fsType)][prev := r]
  }

  /** The search loop: a free entry, 0 if there is none, 1 for a reserved entry met first, NOSECT for a disk error. */
  method FindFree(fs: Fatfs, scl: nat) returns (ncl: u32)
    requires fs.Valid() && 1 <= scl < fs.geo.nFatent
    modifies fs`disk, fs`winsect, fs`win, fs`wflag, fs`faults
    ensures fs.Valid() && fs.Logical() == old(fs.Logical()) && WindowAt(fs, old(fs.winsect))
    ensures
      var fat := Fat(fs.geo, fs.Logical());
      && (ncl == 0 ==> Full(fat))
      && (ncl == 1 ==> exists c :: 2 <= c < |fat| && fat[c] == 1 && NoneFree(fat, scl, c))
      && (ncl in {0, 1, NOSECT} || (2 <= ncl < |fat| && fat[ncl] == 0 && NoneFree(fat, scl, ncl)))
    ensures old(fs.Healthy()) ==> fs.Healthy() && ncl != NOSECT
    ensures old(fs.Healthy()) && old(fs.CopiesAgree()) ==> fs.CopiesAgree()
  {
    hide Image, Overlay, Fatfs.CopiesAgree, Fatfs.Healthy, Fat;
    ghost var fat := Fat(fs.geo, fs.Logical());
    var c := scl;
    ghost var wrapped := false;
    while true
      invariant fs.Valid() && fs.Logical() == old(fs.Logical()) && WindowAt(fs, old(fs.winsect))
      invariant if wrapped then 2 <= c < scl else scl <= c < |fat|
      invariant forall d :: 2 <= d < |fat| && (if wrapped then d > scl || d <= c else scl < d <= c) ==> fat[d] > 1
      invariant old(fs.Healthy()) ==> fs.Healthy()
      invariant old(fs.Healthy()) && old(fs.CopiesAgree()) ==> fs.CopiesAgree()
      decreases if wrapped then scl - c else |fat| + scl - c
    {
      c := c + 1;
      if c >= fs.geo.nFatent {
        c := 2;
        wrapped := true;
        if c > scl {
          return 0;
        }
      }
      var cs := GetFat(fs, c);
      if cs == 0 {
        return c;
      }
      if cs == NOSECT || cs == 1 {
        return cs;
      }
      if c == scl {
        return 0;
      }
    }
  }

  method CreateChain(fs: Fatfs, clst: nat) returns (ncl: u32)
    requires fs.Valid()
    modifies fs`disk, fs`winsect, fs`win, fs`wflag, fs`faults, fs`freeClust, fs`lastClust, fs`fsiFlag
    ensures fs.Valid() && SameData(fs.geo, old(fs.Logical()), fs.Logical()) && WindowAt(fs, old(fs.winsect))
    ensures
      var fat, fat' := Fat(fs.geo, old(fs.Logical())), Fat(fs.geo, fs.Logical());
      var from := if clst == 0 then old(Hint(fs)) else clst;
      if clst != 0 && 2 <= clst < |fat| && 2 <= fat[clst] < |fat| then
        // an existing link is followed
        ncl in {fat[clst], NOSECT} && fs.Logical() == old(fs.Logical())
      else if clst != 0 && (clst < 2 || clst >= |fat| || fat[clst] < 2) then
        ncl in {1, NOSECT} && fs.Logical() == old(fs.Logical())
      else
        && (ncl == 0 ==> Full(fat) && fs.Logical() == old(fs.Logical()))
        && (ncl == 1 ==> (exists c :: 2 <= c < |fat| && fat[c] == 1 && NoneFree(fat, from, c)) && fs.Logical() == old(fs.Logical()))
        && (ncl in {0, 1, NOSECT} || (Linked(fs.geo, fat, fat', clst, ncl) && NoneFree(fat, from, ncl) && fs.lastClust == ncl
                                      && fs.geo.InFat(fs.winsect)))
        && (forall d :: 0 <= d < |fat| && fat[d] != 0 && d != clst ==> fat'[d] == fat[d])
    ensures ncl != NOSECT && old(CountRight(fs)) ==> CountRight(fs)
    ensures
      var fat := Fat(fs.geo, old(fs.Logical()));
      if ncl in {0, 1, NOSECT} || (clst != 0 && clst < |fat| && 2 <= fat[clst] < |fat|) then
        fs.freeClust == old(fs.freeClust) && fs.fsiFlag == old(fs.fsiFlag) && fs.lastClust == old(fs.lastClust)
      else
        && fs.lastClust == ncl
        && fs.freeClust == (if old(fs.freeClust) == NOSECT then NOSECT else (old(fs.freeClust) - 1) % TWO32)
        && fs.fsiFlag == (if old(fs.freeClust) == NOSECT then old(fs.fsiFlag) else Raised(old(fs.fsiFlag)))
    ensures ncl in {0, 1, NOSECT} || 2 <= ncl < fs.geo.nFatent
    ensures old(fs.Healthy()) ==> fs.Healthy() && ncl != NOSECT
    ensures old(fs.Healthy()) && old(fs.CopiesAgree()) ==> fs.CopiesAgree()
  {
    hide Image, SameData, Overlay, Fatfs.CopiesAgree, Fatfs.Healthy, Fat, CountFree, Full, NoneFree;
    ghost var fat := Fat(fs.geo, fs.Logical());
    SameDataSelf(fs.geo, fs.Logical());
    var scl: nat;
    if clst == 0 {
      scl := fs.lastClust;
      if scl == 0 || scl >= fs.geo.nFatent {
        scl := 1;
      }
    } else {
      var cs := GetFat(fs, clst);
      if cs < 2 {
        return 1;
      }
      if cs == NOSECT {
        return cs;
      }
      if cs < fs.geo.nFatent {
        return cs;
      }
      scl := clst;
    }
    ncl := FindFree(fs, scl);
    if ncl in {0, 1, NOSECT} {
      return;
    }
    var res := LinkCluster(fs, clst, ncl);
    hide Linked;
    if res == Ok {
      LinkedCount(fs.geo, fat, Fat(fs.geo, fs.Logical()), clst, ncl);
      fs.lastClust := ncl;
      if fs.freeClust != NOSECT {
        fs.freeClust := (fs.freeClust - 1) % TWO32;
        fs.fsiFlag := Raised(fs.fsiFlag);
      }
    } else {
      ncl := NOSECT;    // put_fat has no other error for entries in range
    }
  }

  /** Marks r as the end of a chain and links it after prev. */
  method LinkCluster(fs: Fatfs, prev: nat, r: nat) returns (res: FResult)
    requires fs.Valid() && 2 <= r < fs.geo.nFatent && Fat(fs.geo, fs.Logical())[r] == 0 && (prev == 0 || 2 <= prev < fs.geo.nFatent)
    modifies fs`disk, fs`winsect, fs`win, fs`wflag, fs`faults
    ensures fs.Valid() && SameData(fs.geo, old(fs.Logical()), fs.Logical()) && WindowAt(fs, old(fs.winsect)) && res in {Ok, DiskErr}
    ensures res == Ok ==> fs.geo.InFat(fs.winsect)
    ensures
      var fat, fat' := Fat(fs.geo, old(fs.Logical())), Fat(fs.geo, fs.Logical());
      && (res == Ok ==> Linked(fs.geo, fat, fat', prev, r))
      && (forall d :: 0 <= d < |fat| && d != r && d != prev ==> fat'[d] == fat[d])
    ensures old(fs.Healthy()) ==> fs.Healthy() && res == Ok
    ensures old(fs.Healthy()) && old(fs.CopiesAgree()) ==> fs.CopiesAgree()
  {
    hide Image, SameData, Overlay, Fatfs.CopiesAgree, Fatfs.Healthy, Fat;
    ghost var l := fs.Logical();
    res := PutFat(fs, r, EOC);
    ghost var l1 := fs.Logical();
    SameDataSelf(fs.geo, l1);
    if res == Ok && prev != 0 {
      res := PutFat(fs, prev, r);
    }
    SameDataTrans(fs.geo, l, l1, fs.Logical());
    SmallValue(fs.geo, r);
  }

  lemma SmallValue(g: Geometry, r: nat)
    requires g.Valid() && r < g.nFatent
    ensures r % Width(g.fsType) == r <= EOC
  {
  }

  lemma LinkedCount(g: Geometry, fat: seq<nat>, fat': seq<nat>, prev: nat, r: nat)
    requires g.Valid() && |fat| == g.nFatent && Linked(g, fat, fat', prev, r) && (prev != 0 ==> 2 <= prev < |fat| && fat[prev] >= |fat|)
    ensures |fat'| == |fat| && CountFree(fat', |fat|) + 1 == CountFree(fat, |fat|)
  {
    hide CountFree;
    EndMark(g);
    CountUpdated(fat, |fat|, r, EOC % Width(g.fsType));
    if prev != 0 {
      CountUpdated(fat[r := EOC % Width(g.fsType)], |fat|, prev, r);
    }
  }

  // ---------------------------------------------------------------- what the operations do to chains

  lemma EndMark(g: Geometry)
    requires g.Valid()
    ensures EOC % Width(g.fsType) >= g.nFatent
    ensures EOC % Width(g.fsType) == match g.fsType case Fat12 => 0xFFF case Fat16 => 0xFFFF case Fat32 => 0x0FFF_FFFF
  {
  }

  /** A new chain of one cluster. */
  lemma NewChain(g: Geometry, fat: seq<nat>, fat': seq<nat>, r: nat)
    requires g.Valid() && |fat| == g.nFatent && Linked(g, fat, fat', 0, r)
    ensures IsChain(fat', [r])
  {
    EndMark(g);
  }

  /** The chain grows by one cluster at its end. */
  lemma GrownChain(g: Geometry, fat: seq<nat>, fat': seq<nat>, s: seq<nat>, r: nat)
    requires g.Valid() && |fat| == g.nFatent && IsChain(fat, s) && Linked(g, fat, fat', s[|s| - 1], r)
    ensures IsChain(fat', s + [r])
  {
    EndMark(g);
    var t := s + [r];
    forall i | 0 <= i < |t|
      ensures 2 <= t[i] < |fat'| && LinkAt(fat', t, i) && (i < |s| ==> t[i] != r)
    {
      if i < |s| {
        assert LinkAt(fat, s, i);
      }
    }
  }

  /** A chain none of whose entries is touched stays. */
  lemma OtherChain(fat: seq<nat>, fat': seq<nat>, s: seq<nat>)
    requires IsChain(fat, s) && |fat'| == |fat| && forall i :: 0 <= i < |s| ==> fat'[s[i]] == fat[s[i]]
    ensures IsChain(fat', s)
  {
    forall i | 0 <= i < |s|
      ensures LinkAt(fat', s, i)
    {
      assert LinkAt(fat, s, i);
    }
  }
}
