/** Any run of create_chain and remove_chain calls: chains stay whole and apart, and no cluster is lost or gained. */
module FatRuns {
  import opened Basics
  import opened Volume
  import opened FatTable
  import opened FatChain

  /** The table, the chains the callers hold, and where the search for a new chain starts. */
  datatype Alloc = Alloc(fat: seq<nat>, chains: seq<seq<nat>>, hint: nat)

  datatype Op = New(r: nat) | Grow(i: nat, r: nat) | Drop(i: nat) | Refused

  ghost predicate Apart(s: seq<nat>, t: seq<nat>) {
    forall x, y :: 0 <= x < |s| && 0 <= y < |t| ==> s[x] != t[y]
  }

  ghost predicate Sound(g: Geometry, a: Alloc) {
    && |a.fat| == g.nFatent
    && (forall i :: 0 <= i < |a.chains| ==> IsChain(a.fat, a.chains[i]))
    && (forall i, j :: 0 <= i < j < |a.chains| ==> Apart(a.chains[i], a.chains[j]))
  }

  function Last(s: seq<nat>): nat
    requires s != []
  {
    s[|s| - 1]
  }

  /** What a call does to the table and the chains. */
  ghost predicate Step(g: Geometry, a: Alloc, op: Op, b: Alloc)
    requires g.Valid()
  {
    match op
    case New(r) =>
      && Linked(g, a.fat, b.fat, 0, r) && b.chains == a.chains + [[r]]
      && NoneFree(a.fat, a.hint, r) && b.hint == r
    case Grow(i, r) =>
      && i < |a.chains| && a.chains[i] != []
      && Linked(g, a.fat, b.fat, Last(a.chains[i]), r) && b.chains == a.chains[i := a.chains[i] + [r]]
      && NoneFree(a.fat, Last(a.chains[i]), r) && b.hint == r
    case Drop(i) =>
      && i < |a.chains| && a.chains[i] != []
      && Cleared(a.fat, b.fat, Walk(a.fat, a.chains[i][0])) && b.chains == a.chains[..i] + a.chains[i + 1..]
      && b.hint == a.hint
    case Refused => b == a
  }

  function Total(chains: seq<seq<nat>>): nat {
    if chains == [] then 0 else Total(chains[..|chains| - 1]) + |chains[|chains| - 1]|
  }

  // ---------------------------------------------------------------- single chains

  lemma ChainUsed(fat: seq<nat>, s: seq<nat>, x: nat)
    requires IsChain(fat, s) && x < |s|
    ensures 2 <= s[x] < |fat| && fat[s[x]] != 0
  {
    assert LinkAt(fat, s, x);
  }

  /** Linking a free entry leaves the other chains as they are, and the new cluster is in none of them. */
  lemma LinkKeeps(g: Geometry, fat: seq<nat>, fat': seq<nat>, prev: nat, r: nat, t: seq<nat>)
    requires g.Valid() && Linked(g, fat, fat', prev, r) && IsChain(fat, t)
    requires forall y :: 0 <= y < |t| ==> t[y] != prev
    ensures IsChain(fat', t) && Apart([r], t) && Apart(t, [r])
  {
    forall y | 0 <= y < |t|
      ensures t[y] != r && fat'[t[y]] == fat[t[y]]
    {
      ChainUsed(fat, t, y);
    }
    OtherChain(fat, fat', t);
  }

  lemma ClearKeeps(fat: seq<nat>, fat': seq<nat>, s: seq<nat>, t: seq<nat>)
    requires Cleared(fat, fat', s) && IsChain(fat, t) && Apart(s, t)
    ensures IsChain(fat', t)
  {
    forall y | 0 <= y < |t|
      ensures fat'[t[y]] == fat[t[y]]
    {
      ChainUsed(fat, t, y);
    }
    OtherChain(fat, fat', t);
  }

  /** Clearing a chain frees exactly its clusters. */
  lemma {:induction false} ClearedCount(fat: seq<nat>, fat': seq<nat>, s: seq<nat>)
    requires Cleared(fat, fat', s) && Distinct(s)
    requires forall x :: 0 <= x < |s| ==> 2 <= s[x] < |fat| && fat[s[x]] != 0
    ensures CountFree(fat', |fat|) == CountFree(fat, |fat|) + |s|
    decreases |s|
  {
    if s == [] {
      assert fat' == fat;
    } else {
      var c, t := s[0], s[1..];
      assert forall x :: 0 <= x < |t| ==> t[x] == s[x + 1];
      CountUpdated(fat, |fat|, c, 0);
      ClearTail(fat, fat', s);
      ClearedCount(fat[c := 0], fat', t);
    }
  }

  lemma ClearTail(fat: seq<nat>, fat': seq<nat>, s: seq<nat>)
    requires Cleared(fat, fat', s) && s != [] && s[0] < |fat|
    ensures Cleared(fat[s[0] := 0], fat', s[1..])
  {
    assert s == [s[0]] + s[1..];
  }

  // ---------------------------------------------------------------- steps

  lemma {:induction false} TotalUpdated(chains: seq<seq<nat>>, i: nat, s: seq<nat>)
    requires i < |chains|
    ensures Total(chains[i := s]) + |chains[i]| == Total(chains) + |s|
    decreases |chains|
  {
    var n := |chains| - 1;
    var d := chains[i := s];
    if i < n {
      TotalUpdated(chains[..n], i, s);
      assert d[..n] == chains[..n][i := s];
    } else {
      assert d[..n] == chains[..n];
    }
  }

  lemma {:induction false} TotalRemoved(chains: seq<seq<nat>>, i: nat)
    requires i < |chains|
    ensures Total(chains[..i] + chains[i + 1..]) + |chains[i]| == Total(chains)
    decreases |chains|
  {
    var n := |chains| - 1;
    var d := chains[..i] + chains[i + 1..];
    if i < n {
      TotalRemoved(chains[..n], i);
      assert d[..n - 1] == chains[..n][..i] + chains[..n][i + 1..];
    } else {
      assert d == chains[..n];
    }
  }

  lemma NewKeeps(g: Geometry, a: Alloc, r: nat, b: Alloc)
    requires g.Valid() && Sound(g, a) && Step(g, a, New(r), b)
    ensures Sound(g, b) && CountFree(b.fat, g.nFatent) + Total(b.chains) == CountFree(a.fat, g.nFatent) + Total(a.chains)
  {
    hide Linked, IsChain, Apart;
    assert |b.fat| == |a.fat| by { LinkedCount(g, a.fat, b.fat, 0, r); }
    LinkedCount(g, a.fat, b.fat, 0, r);
    NewChain(g, a.fat, b.fat, r);
    forall i | 0 <= i < |a.chains|
      ensures IsChain(b.fat, a.chains[i]) && Apart(a.chains[i], [r])
    {
      NotZero(a.fat, a.chains[i]);
      LinkKeeps(g, a.fat, b.fat, 0, r, a.chains[i]);
    }
    assert b.chains[..|b.chains| - 1] == a.chains;
  }

  lemma NotZero(fat: seq<nat>, t: seq<nat>)
    requires IsChain(fat, t)
    ensures forall y :: 0 <= y < |t| ==> t[y] != 0
  {
  }

  lemma GrowKeeps(g: Geometry, a: Alloc, i: nat, r: nat, b: Alloc)
    requires g.Valid() && Sound(g, a) && Step(g, a, Grow(i, r), b)
    ensures Sound(g, b) && CountFree(b.fat, g.nFatent) + Total(b.chains) == CountFree(a.fat, g.nFatent) + Total(a.chains)
  {
    hide Linked, IsChain, Apart;
    var s := a.chains[i];
    LastUsed(a.fat, s);
    LinkedCount(g, a.fat, b.fat, Last(s), r);
    GrownChain(g, a.fat, b.fat, s, r);
    TotalUpdated(a.chains, i, s + [r]);
    forall j | 0 <= j < |a.chains| && j != i
      ensures IsChain(b.fat, a.chains[j]) && Apart(a.chains[j], s + [r]) && Apart(s + [r], a.chains[j])
    {
      ApartBoth(a.chains, i, j);
      NotLast(s, a.chains[j]);
      LinkKeeps(g, a.fat, b.fat, Last(s), r, a.chains[j]);
      ApartJoin(s, r, a.chains[j]);
    }
  }

  lemma LastUsed(fat: seq<nat>, s: seq<nat>)
    requires IsChain(fat, s)
    ensures 2 <= Last(s) < |fat| && fat[Last(s)] >= |fat|
  {
    assert LinkAt(fat, s, |s| - 1);
  }

  lemma ApartBoth(chains: seq<seq<nat>>, i: nat, j: nat)
    requires i < |chains| && j < |chains| && i != j
    requires forall k, l :: 0 <= k < l < |chains| ==> Apart(chains[k], chains[l])
    ensures Apart(chains[i], chains[j]) && Apart(chains[j], chains[i])
  {
    assert if i < j then Apart(chains[i], chains[j]) else Apart(chains[j], chains[i]);
  }

  lemma NotLast(s: seq<nat>, t: seq<nat>)
    requires s != [] && Apart(s, t)
    ensures forall y :: 0 <= y < |t| ==> t[y] != Last(s)
  {
  }

  lemma ApartJoin(s: seq<nat>, r: nat, t: seq<nat>)
    requires Apart(s, t) && Apart([r], t)
    ensures Apart(s + [r], t) && Apart(t, s + [r])
  {
    forall x, y | 0 <= x <= |s| && 0 <= y < |t|
      ensures (s + [r])[x] != t[y]
    {
      assert [r][0] != t[y];
    }
  }

  lemma DropKeeps(g: Geometry, a: Alloc, i: nat, b: Alloc)
    requires g.Valid() && Sound(g, a) && Step(g, a, Drop(i), b)
    ensures Sound(g, b) && CountFree(b.fat, g.nFatent) + Total(b.chains) == CountFree(a.fat, g.nFatent) + Total(a.chains)
  {
    hide IsChain, Apart, Cleared, Walk;
    var s := a.chains[i];
    WalkOfChain(a.fat, s);
    ChainClusters(a.fat, s);
    ClearedCount(a.fat, b.fat, s);
    TotalRemoved(a.chains, i);
    assert |b.fat| == |a.fat| by { ClearedLength(a.fat, b.fat, s); }
    forall j | 0 <= j < |a.chains| && j != i
      ensures IsChain(b.fat, a.chains[j])
    {
      ApartBoth(a.chains, i, j);
      ClearKeeps(a.fat, b.fat, s, a.chains[j]);
    }
    assert forall k :: 0 <= k < |b.chains| ==> b.chains[k] == a.chains[if k < i then k else k + 1];
  }

  lemma ClearedLength(fat: seq<nat>, fat': seq<nat>, s: seq<nat>)
    requires Cleared(fat, fat', s)
    ensures |fat'| == |fat|
  {
  }

  lemma ChainClusters(fat: seq<nat>, s: seq<nat>)
    requires IsChain(fat, s)
    ensures Distinct(s) && forall x :: 0 <= x < |s| ==> 2 <= s[x] < |fat| && fat[s[x]] != 0
  {
    forall x | 0 <= x < |s|
      ensures fat[s[x]] != 0
    {
      ChainUsed(fat, s, x);
    }
  }

  // ---------------------------------------------------------------- runs

  ghost predicate Run(g: Geometry, run: seq<Alloc>, ops: seq<Op>)
    requires g.Valid()
  {
    |run| == |ops| + 1 && forall k :: 0 <= k < |ops| ==> Step(g, run[k], ops[k], run[k + 1])
  }

  /** In every state of every run the chains are whole and disjoint, and free plus allocated clusters is constant. */
  lemma {:induction false} RunsAreSound(g: Geometry, run: seq<Alloc>, ops: seq<Op>)
    requires g.Valid() && Run(g, run, ops) && Sound(g, run[0])
    ensures
      var a, b := run[0], run[|ops|];
      Sound(g, b) && CountFree(b.fat, g.nFatent) + Total(b.chains) == CountFree(a.fat, g.nFatent) + Total(a.chains)
    decreases |ops|
  {
    hide Step, Sound, CountFree, Total;
    if ops != [] {
      var n := |ops| - 1;
      assert forall k :: 0 <= k < n ==> Step(g, run[k], ops[k], run[k + 1]) ==> Step(g, run[..n + 1][k], ops[..n][k], run[..n + 1][k + 1]);
      RunsAreSound(g, run[..n + 1], ops[..n]);
      StepKeeps(g, run[n], ops[n], run[n + 1]);
    }
  }

  lemma StepKeeps(g: Geometry, a: Alloc, op: Op, b: Alloc)
    requires g.Valid() && Sound(g, a) && Step(g, a, op, b)
    ensures Sound(g, b) && |a.fat| == |b.fat| == g.nFatent
    ensures CountFree(b.fat, g.nFatent) + Total(b.chains) == CountFree(a.fat, g.nFatent) + Total(a.chains)
  {
    match op
    case New(r) => NewKeeps(g, a, r, b);
    case Grow(i, r) => GrowKeeps(g, a, i, r, b);
    case Drop(i) => DropKeeps(g, a, i, b);
    case Refused =>
  }

  // ---------------------------------------------------------------- the calls make such runs

  /** Chains are named by their place among those held. */
  datatype Request = DoNew | DoGrow(i: nat) | DoDrop(i: nat)

  /** No cluster is free, or the search meets a reserved entry before any free one, as only a damaged table lets it. */
  ghost predicate NothingToTake(fat: seq<nat>, from: nat) {
    Full(fat) || exists c :: 2 <= c < |fat| && fat[c] == 1 && NoneFree(fat, from, c)
  }

  /** What each request must be answered with: it is done, or refused for want of a cluster or of the chain named. */
  ghost predicate Answers(request: Request, op: Op, a: Alloc) {
    match request
    case DoNew => op.New? || (op == Refused && NothingToTake(a.fat, a.hint))
    case DoGrow(i) =>
      if i < |a.chains| && a.chains[i] != [] then
        (op.Grow? && op.i == i) || (op == Refused && NothingToTake(a.fat, Last(a.chains[i])))
      else op == Refused
    case DoDrop(i) => op == if i < |a.chains| then Drop(i) else Refused
  }

  ghost function AllocOf(fs: Fatfs, chains: seq<seq<nat>>): Alloc
    requires fs.Valid()
    reads fs
  {
    Alloc(Fat(fs.geo, fs.Logical()), chains, Hint(fs))
  }

  /** The chains a request does not name are whole, whatever becomes of the one it names. */
  ghost predicate OthersWhole(a: Alloc, request: Request, fat: seq<nat>) {
    forall j :: 0 <= j < |a.chains| && request != DoGrow(j) && request != DoDrop(j) ==> IsChain(fat, a.chains[j])
  }

  /** One request, with a disk that may fail; after a failure the table may hold half of a change. */
  method Serve(fs: Fatfs, chains: seq<seq<nat>>, request: Request) returns (ok: bool, op: Op, held: seq<seq<nat>>)
    requires fs.Valid() && Sound(fs.geo, AllocOf(fs, chains))
    modifies fs
    ensures fs.Valid()
    ensures ok ==> Step(fs.geo, old(AllocOf(fs, chains)), op, AllocOf(fs, held)) && Answers(request, op, old(AllocOf(fs, chains)))
    ensures ok && old(CountRight(fs)) ==> CountRight(fs)
    ensures OthersWhole(old(AllocOf(fs, chains)), request, Fat(fs.geo, fs.Logical()))
    ensures old(fs.Healthy()) ==> fs.Healthy() && ok
    ensures old(fs.Healthy()) && old(fs.CopiesAgree()) ==> fs.CopiesAgree()
  {
    hide Fatfs.Logical, Fatfs.Healthy, Fatfs.CopiesAgree, Fat, CountFree, CountRight, NoneFree, Full, Apart, Walk, Stop, Cleared, Linked;
    ok, op, held := true, Refused, chains;
    ghost var a := AllocOf(fs, chains);
    AllWhole(fs.geo, a, request);
    match request {
      case DoNew =>
        ok, op, held := ServeCreate(fs, chains, false, 0);
      case DoGrow(i) =>
        if i < |chains| {
          ok, op, held := ServeCreate(fs, chains, true, i);
        }
      case DoDrop(i) =>
        if i < |chains| {
          StopOfChain(a.fat, chains[i]);
          WalkOfChain(a.fat, chains[i]);
          var res := RemoveChain(fs, chains[i][0]);
          OthersLeft(fs.geo, a, i, Fat(fs.geo, fs.Logical()));
          ok, op, held := res == Ok, Drop(i), chains[..i] + chains[i + 1..];
        }
    }
  }

  /** A cluster for a new chain, or for the end of one held. */
  method ServeCreate(fs: Fatfs, chains: seq<seq<nat>>, grow: bool, i: nat) returns (ok: bool, op: Op, held: seq<seq<nat>>)
    requires fs.Valid() && Sound(fs.geo, AllocOf(fs, chains)) && (grow ==> i < |chains| && chains[i] != [])
    modifies fs
    ensures fs.Valid()
    ensures
      var a := old(AllocOf(fs, chains));
      ok ==>
        && Step(fs.geo, a, op, AllocOf(fs, held))
        && ((if grow then op.Grow? && op.i == i else op.New?)
            || (op == Refused && NothingToTake(a.fat, if grow then Last(a.chains[i]) else a.hint)))
    ensures OthersWhole(old(AllocOf(fs, chains)), if grow then DoGrow(i) else DoNew, Fat(fs.geo, fs.Logical()))
    ensures ok && old(CountRight(fs)) ==> CountRight(fs)
    ensures old(fs.Healthy()) ==> fs.Healthy() && ok
    ensures old(fs.Healthy()) && old(fs.CopiesAgree()) ==> fs.CopiesAgree()
  {
    hide Fatfs.Logical, Fatfs.Healthy, Fatfs.CopiesAgree, Fat, CountFree, CountRight, NoneFree, Full, Apart, Walk, Cleared, Linked;
    ghost var fat := Fat(fs.geo, fs.Logical());
    var prev := 0;
    if grow {
      prev := Last(chains[i]);
      LastUsed(fat, chains[i]);
    }
    ghost var a := AllocOf(fs, chains);
    hide IsChain;
    var ncl := CreateChain(fs, prev);
    OthersStay(fs.geo, a, if grow then DoGrow(i) else DoNew, Fat(fs.geo, fs.Logical()), prev);
    ok, op, held := ncl != NOSECT, Refused, chains;
    if ncl !in {0, 1, NOSECT} {
      if grow {
        op, held := Grow(i, ncl), chains[i := chains[i] + [ncl]];
      } else {
        op, held := New(ncl), chains + [[ncl]];
      }
    }
  }

  /** Taking a cluster touches no other chain. */
  lemma OthersStay(g: Geometry, a: Alloc, request: Request, fat: seq<nat>, prev: nat)
    requires g.Valid() && Sound(g, a) && |fat| == |a.fat|
    requires (request == DoNew && prev == 0)
             || (request.DoGrow? && request.i < |a.chains| && a.chains[request.i] != [] && prev == Last(a.chains[request.i]))
    requires forall d :: 0 <= d < |fat| && a.fat[d] != 0 && d != prev ==> fat[d] == a.fat[d]
    ensures OthersWhole(a, request, fat)
  {
    hide IsChain, Apart;
    forall j | 0 <= j < |a.chains| && request != DoGrow(j) && request != DoDrop(j)
      ensures IsChain(fat, a.chains[j])
    {
      var t := a.chains[j];
      if request == DoNew {
        NotZero(a.fat, t);
      } else {
        ApartBoth(a.chains, request.i, j);
        NotLast(a.chains[request.i], t);
      }
      ChainClusters(a.fat, t);
      OtherChain(a.fat, fat, t);
    }
  }

  /** Nor does removing one. */
  lemma OthersLeft(g: Geometry, a: Alloc, i: nat, fat: seq<nat>)
    requires g.Valid() && Sound(g, a) && i < |a.chains| && |fat| == |a.fat|
    requires forall d :: 0 <= d < |fat| && d !in a.chains[i] ==> fat[d] == a.fat[d]
    ensures OthersWhole(a, DoDrop(i), fat)
  {
    hide IsChain;
    forall j | 0 <= j < |a.chains| && j != i
      ensures IsChain(fat, a.chains[j])
    {
      var t := a.chains[j];
      ApartBoth(a.chains, i, j);
      ChainClusters(a.fat, t);
      forall y | 0 <= y < |t|
        ensures t[y] !in a.chains[i]
      {
      }
      OtherChain(a.fat, fat, t);
    }
  }

  /** The chains held are whole as they are, or if nothing is changed. */
  lemma AllWhole(g: Geometry, a: Alloc, request: Request)
    requires Sound(g, a)
    ensures OthersWhole(a, request, a.fat)
  {
  }

  ghost predicate AllAnswered(requests: seq<Request>, ops: seq<Op>, run: seq<Alloc>) {
    |ops| <= |requests| && |ops| <= |run| && forall k :: 0 <= k < |ops| ==> Answers(requests[k], ops[k], run[k])
  }

  /**
   Any list of requests, up to the first failure of the disk.  In the end the chains held are whole and apart,
   and a free count that was right is right: with the clusters held it adds up to what it did at the start.
   */
  method ServeAll(fs: Fatfs, chains: seq<seq<nat>>, requests: seq<Request>)
    returns (ok: bool, ops: seq<Op>, held: seq<seq<nat>>, ghost run: seq<Alloc>)
    requires fs.Valid() && Sound(fs.geo, AllocOf(fs, chains))
    modifies fs
    ensures fs.Valid() && Run(fs.geo, run, ops) && run[0] == old(AllocOf(fs, chains)) && AllAnswered(requests, ops, run)
    ensures if ok then |ops| == |requests| && run[|ops|] == AllocOf(fs, held) else |ops| < |requests|
    ensures if ok then Sound(fs.geo, AllocOf(fs, held)) else OthersWhole(run[|ops|], requests[|ops|], Fat(fs.geo, fs.Logical()))
    ensures ok && old(CountRight(fs)) ==> CountRight(fs) && fs.freeClust + Total(held) == old(fs.freeClust) + Total(chains)
    ensures old(fs.Healthy()) ==> fs.Healthy() && ok
    ensures old(fs.Healthy()) && old(fs.CopiesAgree()) ==> fs.CopiesAgree()
  {
    hide Fatfs.Logical, Fatfs.Healthy, Fatfs.CopiesAgree, Fat, CountFree, Step, Answers, Sound, Total, CountRight;
    ok, ops, held, run := true, [], chains, [AllocOf(fs, chains)];
    CountsAre(fs, chains);
    while |ops| < |requests|
      invariant |ops| <= |requests| && ok && fs.Valid() && Sound(fs.geo, AllocOf(fs, held))
      invariant Run(fs.geo, run, ops) && run[0] == old(AllocOf(fs, chains)) && run[|ops|] == AllocOf(fs, held)
      invariant AllAnswered(requests, ops, run)
      invariant old(CountRight(fs)) ==> CountRight(fs)
      invariant old(fs.Healthy()) ==> fs.Healthy()
      invariant old(fs.Healthy()) && old(fs.CopiesAgree()) ==> fs.CopiesAgree()
      decreases |requests| - |ops|
    {
      ghost var a := AllocOf(fs, held);
      var op, next;
      ok, op, next := Serve(fs, held, requests[|ops|]);
      if !ok { return; }
      held := next;
      ghost var b := AllocOf(fs, held);
      StepKeeps(fs.geo, a, op, b);
      RunGrows(fs.geo, run, ops, op, b);
      AnsweredGrows(requests, ops, run, op, b);
      ops, run := ops + [op], run + [b];
    }
    RunsAreSound(fs.geo, run, ops);
    CountsAre(fs, held);
  }

  lemma CountsAre(fs: Fatfs, held: seq<seq<nat>>)
    requires fs.Valid()
    ensures CountRight(fs) <==> fs.freeClust == CountFree(AllocOf(fs, held).fat, fs.geo.nFatent)
  {
  }

  lemma RunGrows(g: Geometry, run: seq<Alloc>, ops: seq<Op>, op: Op, b: Alloc)
    requires g.Valid() && Run(g, run, ops) && Step(g, run[|ops|], op, b)
    ensures Run(g, run + [b], ops + [op])
  {
    hide Step;
    var run', ops' := run + [b], ops + [op];
    forall k | 0 <= k < |ops'|
      ensures Step(g, run'[k], ops'[k], run'[k + 1])
    {
      if k < |ops| {
        assert Step(g, run[k], ops[k], run[k + 1]);
      }
    }
  }

  lemma AnsweredGrows(requests: seq<Request>, ops: seq<Op>, run: seq<Alloc>, op: Op, b: Alloc)
    requires AllAnswered(requests, ops, run) && |ops| < |requests| && |run| == |ops| + 1 && Answers(requests[|ops|], op, run[|ops|])
    ensures AllAnswered(requests, ops + [op], run + [b])
  {
    hide Answers;
    var run', ops' := run + [b], ops + [op];
    forall k | 0 <= k < |ops'|
      ensures Answers(requests[k], ops'[k], run'[k])
    {
      if k < |ops| {
        assert Answers(requests[k], ops[k], run[k]);
      }
    }
  }
}
